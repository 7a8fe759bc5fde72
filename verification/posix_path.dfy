/**
 * The three functions of Python's `posixpath` (`os.path` on the platforms the
 * client targets) that the client applies to paths as plain strings: `dirname`,
 * `basename` and `join` with one component.
 */
module PosixPath {
  import opened Text

  /** The index just after the last '/' of `p`, 0 when there is none (`p.rfind('/') + 1`). */
  function AfterLastSlash(p: string): (i: nat)
    ensures i <= |p|
    ensures i > 0 ==> p[i - 1] == '/'
    ensures forall k :: i <= k < |p| ==> p[k] != '/'
    decreases |p|
  {
    if p == [] then 0
    else if p[|p| - 1] == '/' then |p|
    else AfterLastSlash(p[..|p| - 1])
  }

  /** `os.path.basename`: the longest suffix of `p` without a '/'. */
  function Basename(p: string): (b: string)
    ensures |b| <= |p| && b == p[|p| - |b|..]
    ensures '/' !in b
    ensures |b| == |p| || p[|p| - |b| - 1] == '/'
  {
    p[AfterLastSlash(p)..]
  }

  predicate AllSlashes(s: string)
  {
    forall k :: 0 <= k < |s| ==> s[k] == '/'
  }

  /**
   * `os.path.dirname`: everything up to the last '/', with trailing slashes
   * removed unless that part consists of slashes only (the root).
   */
  function Dirname(p: string): string
  {
    var head := p[..AfterLastSlash(p)];
    if head != [] && !AllSlashes(head) then StripRight(head, {'/'}) else head
  }

  /** `os.path.join(a, b)`. */
  function PathJoin(a: string, b: string): string
  {
    if b != [] && b[0] == '/' then b
    else if a == [] || a[|a| - 1] == '/' then a + b
    else a + "/" + b
  }

  /** Joining a directory that does not end in '/' puts exactly one '/' between the parts. */
  lemma JoinPlain(d: string, name: string)
    requires d != [] && d[|d| - 1] != '/'
    requires '/' !in name
    ensures PathJoin(d, name) == d + "/" + name
  {
  }

  /** `basename` recovers the last component given to `join`. */
  lemma BasenameOfJoin(d: string, name: string)
    requires '/' !in name
    ensures Basename(PathJoin(d, name)) == name
  {
    var p := PathJoin(d, name);
    var sep := if d == [] || d[|d| - 1] == '/' then d else d + "/";
    assert p == sep + name;
    var i := AfterLastSlash(p);
    assert forall k :: |sep| <= k < |p| ==> p[k] == name[k - |sep|];
    assert sep != [] ==> p[|sep| - 1] == '/';
    assert i == |sep|;
  }

  /** `dirname` recovers the directory given to `join`. */
  lemma DirnameOfJoin(d: string, name: string)
    requires d != [] && d[|d| - 1] != '/'
    requires '/' !in name
    ensures Dirname(PathJoin(d, name)) == d
  {
    var p := d + "/" + name;
    assert PathJoin(d, name) == p;
    var i := AfterLastSlash(p);
    assert p[|d|] == '/';
    assert forall k :: |d| < k < |p| ==> p[k] == name[k - |d| - 1];
    assert i == |d| + 1;
    var head := p[..i];
    assert head == d + "/";
    assert head[|d| - 1] != '/';
    var r := StripRight(head, {'/'});
    assert |r| == |d|;
  }
}
