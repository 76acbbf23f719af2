/** POSIX path helpers as Python's `posixpath` defines them:
    `os.path.basename`, `os.path.dirname` and `os.path.join` of two parts. */
module Paths {
  import opened Strings

  /** `p.rfind('/') + 1`: the index just past the last slash, 0 without one. */
  function AfterLastSlash(p: string): (i: nat)
    ensures i <= |p|
    ensures i > 0 ==> p[i - 1] == '/'
    ensures forall j :: i <= j < |p| ==> p[j] != '/'
  {
    if |p| == 0 then 0
    else if p[|p| - 1] == '/' then |p|
    else AfterLastSlash(p[..|p| - 1])
  }

  /** `os.path.basename(p)`: the slash-free tail after the last slash. */
  function Basename(p: string): string {
    p[AfterLastSlash(p)..]
  }

  predicate AllSlashes(s: string) {
    forall j :: 0 <= j < |s| ==> s[j] == '/'
  }

  /** `s.rstrip('/')`. */
  function StripTrailingSlashes(s: string): (r: string)
    ensures StartsWith(s, r)
    ensures r == [] || r[|r| - 1] != '/'
    ensures forall j :: |r| <= j < |s| ==> s[j] == '/'
  {
    if |s| > 0 && s[|s| - 1] == '/' then StripTrailingSlashes(s[..|s| - 1]) else s
  }

  /** `os.path.dirname(p)`: everything up to the last slash, with trailing
      slashes removed unless the head is made of slashes only. */
  function Dirname(p: string): string {
    var head := p[..AfterLastSlash(p)];
    if head != "" && !AllSlashes(head) then StripTrailingSlashes(head) else head
  }

  /** `os.path.join(a, b)`: an absolute `b` replaces `a`; otherwise a slash is
      inserted unless `a` is empty or already ends with one. */
  function JoinPath(a: string, b: string): string {
    if |b| > 0 && b[0] == '/' then b
    else if a == "" || a[|a| - 1] == '/' then a + b
    else a + "/" + b
  }

  /** Putting a prefix that is empty or ends with a slash in front of a path
      shifts the position after its last slash by the prefix's length. */
  lemma {:induction false} AfterLastSlashShift(y: string, p: string)
    requires y == "" || y[|y| - 1] == '/'
    ensures AfterLastSlash(y + p) == |y| + AfterLastSlash(p)
    decreases |p|
  {
    if |p| == 0 {
      assert y + p == y;
    } else if p[|p| - 1] != '/' {
      assert (y + p)[..|y + p| - 1] == y + p[..|p| - 1];
      AfterLastSlashShift(y, p[..|p| - 1]);
    }
  }

  /** Appending a slash-free name right after a slash (or to nothing) makes
      that name the basename. */
  lemma BasenameAfterSlash(x: string, name: string)
    requires x == "" || x[|x| - 1] == '/'
    requires '/' !in name
    ensures Basename(x + name) == name
  {
    AfterLastSlashShift(x, name);
    assert AfterLastSlash(name) == 0;
  }

  /** The basename of a path is its last `/`-separated segment. */
  lemma BasenameIsLastSegment(p: string)
    ensures Basename(p) == Last(Split(p, '/'))
  {
    var parts := Split(p, '/');
    if |parts| == 1 {
      BasenameAfterSlash("", parts[0]);
      assert "" + parts[0] == p;
    } else {
      JoinSnoc(parts, '/');
      BasenameAfterSlash(Join(parts[..|parts| - 1], '/') + "/", Last(parts));
    }
  }

  /** A prefix that is empty or ends with a slash does not change the basename. */
  lemma BasenameAfterPrefix(y: string, p: string)
    requires y == "" || y[|y| - 1] == '/'
    ensures Basename(y + p) == Basename(p)
  {
    AfterLastSlashShift(y, p);
    var k := AfterLastSlash(p);
    assert (y + p)[|y| + k..] == p[k..];
  }

  /** A folder path joined from a base and a relative path has the relative
      path's last segment as its basename. */
  lemma BasenameOfJoinPath(base: string, rel: string)
    ensures Basename(JoinPath(base, rel)) == Last(Split(rel, '/'))
  {
    BasenameIsLastSegment(rel);
    if |rel| > 0 && rel[0] == '/' {
    } else if base == "" || base[|base| - 1] == '/' {
      BasenameAfterPrefix(base, rel);
    } else {
      assert base + "/" + rel == (base + "/") + rel;
      BasenameAfterPrefix(base + "/", rel);
    }
  }

  /** The directory part of a directory joined with a slash-free name does not
      depend on the name. */
  lemma DirnameOfJoinPathIgnoresName(root: string, a: string, b: string)
    requires '/' !in a && '/' !in b
    ensures Dirname(JoinPath(root, a)) == Dirname(JoinPath(root, b))
  {
    var y := if root == "" || root[|root| - 1] == '/' then root else root + "/";
    assert JoinPath(root, a) == y + a && JoinPath(root, b) == y + b;
    AfterLastSlashShift(y, a);
    AfterLastSlashShift(y, b);
    assert AfterLastSlash(a) == 0 && AfterLastSlash(b) == 0;
    assert (y + a)[..|y|] == y && (y + b)[..|y|] == y;
  }

  /** A file path built by joining a directory and a file name has that
      directory as its dirname and that name as its basename. */
  lemma {:induction false} DirnameOfJoinPath(root: string, name: string)
    requires root != "" && root[|root| - 1] != '/'
    requires '/' !in name
    ensures Dirname(JoinPath(root, name)) == root
    ensures Basename(JoinPath(root, name)) == name
  {
    var p := JoinPath(root, name);
    assert p == (root + "/") + name;
    BasenameAfterSlash(root + "/", name);
    var i := AfterLastSlash(p);
    assert i == |root| + 1;
    assert p[..i] == root + "/";
    assert !AllSlashes(root + "/") by {
      assert (root + "/")[|root| - 1] != '/';
    }
    assert StripTrailingSlashes(root + "/") == StripTrailingSlashes(root) by {
      assert (root + "/")[..|root|] == root;
    }
  }
}
