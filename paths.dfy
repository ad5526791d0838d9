/** The two functions of Python's `posixpath` that the publisher uses. */
module Paths {

  /** `os.path.join(a, b)`: an absolute `b` replaces `a`; otherwise a `/` is
      inserted unless `a` is empty or already ends in one. */
  function Join(a: string, b: string): string
  {
    if |b| > 0 && b[0] == '/' then b
    else if a == "" || a[|a| - 1] == '/' then a + b
    else a + "/" + b
  }

  /** `os.path.basename(p)`: the text after the last `/` of `p` (all of `p` when it has none). */
  function Basename(p: string): string
    decreases |p|
  {
    if p == "" then ""
    else if p[|p| - 1] == '/' then ""
    else Basename(p[..|p| - 1]) + [p[|p| - 1]]
  }

  /** The basename is the longest slash-free suffix: it holds no `/`, ends `p`, and is all of `p`
      or preceded by a `/`. */
  lemma {:induction false} BasenameIsLastComponent(p: string)
    ensures var r := Basename(p);
      && '/' !in r
      && |r| <= |p| && p[|p| - |r|..] == r
      && (|r| == |p| || p[|p| - |r| - 1] == '/')
    decreases |p|
  {
    if p != "" && p[|p| - 1] != '/' {
      var n := |p| - 1;
      var c := p[n];
      var q := p[..n];
      BasenameIsLastComponent(q);
      var rq := Basename(q);
      var r := rq + [c];
      assert Basename(p) == r;
      var k := |q| - |rq|;
      assert q[k..] == rq;
      assert p[k..] == q[k..] + [c];
      assert '/' !in r by {
        forall i | 0 <= i < |r| ensures r[i] != '/' {
          if i < |rq| {
            assert r[i] == rq[i];
          }
        }
      }
      if k > 0 {
        assert p[k - 1] == q[k - 1];
      }
    }
  }

  /** After a directory prefix that is empty or ends in `/`, a slash-free name is its own basename. */
  lemma {:induction false} BasenameAfterSlash(prefix: string, name: string)
    requires prefix == "" || prefix[|prefix| - 1] == '/'
    requires '/' !in name
    ensures Basename(prefix + name) == name
    decreases |name|
  {
    var p := prefix + name;
    if name != [] {
      var last := |name| - 1;
      assert p[|p| - 1] == name[last];
      assert name[last] in name;
      assert p[..|p| - 1] == prefix + name[..last];
      assert Basename(p) == Basename(prefix + name[..last]) + [name[last]];
      BasenameAfterSlash(prefix, name[..last]);
      assert name[..last] + [name[last]] == name;
    } else {
      assert p == prefix;
    }
  }

  /** A prefix that is empty or ends in `/` does not change the basename of what follows it. */
  lemma {:induction false} BasenameIgnoresDirectory(prefix: string, s: string)
    requires prefix == "" || prefix[|prefix| - 1] == '/'
    ensures Basename(prefix + s) == Basename(s)
    decreases |s|
  {
    var p := prefix + s;
    if s == [] {
      assert p == prefix;
    } else {
      var last := |s| - 1;
      assert p[|p| - 1] == s[last];
      if s[last] != '/' {
        assert p[..|p| - 1] == prefix + s[..last];
        BasenameIgnoresDirectory(prefix, s[..last]);
      }
    }
  }

  /** The basename of `join(dir, name)` is `name` whenever `name` holds no `/`. */
  lemma BasenameOfJoin(dir: string, name: string)
    requires '/' !in name
    ensures Basename(Join(dir, name)) == name
  {
    if name != [] {
      assert name[0] in name;
    }
    if dir == "" || dir[|dir| - 1] == '/' {
      BasenameAfterSlash(dir, name);
    } else {
      BasenameAfterSlash(dir + "/", name);
      assert dir + "/" + name == (dir + "/") + name;
    }
  }
}
