/**
 * The POSIX path functions the downloader relies on: `os.path.join` with two
 * arguments, `basename`, `dirname` and the root half of `splitext`.
 */
module Paths {
  import opened Text

  predicate NoSlash(s: string) {
    forall i :: 0 <= i < |s| ==> s[i] != '/'
  }

  /** `os.path.join(a, b)`: an absolute `b` replaces `a`; otherwise one '/' separates them. */
  function PathJoin(a: string, b: string): string {
    if |b| > 0 && b[0] == '/' then b
    else if |a| == 0 || a[|a| - 1] == '/' then a + b
    else a + "/" + b
  }

  /** `os.path.basename(p)`: everything after the last '/'. */
  function BaseName(p: string): (r: string)
    ensures NoSlash(r)
    ensures |r| <= |p| && r == p[|p| - |r|..]
    ensures |r| < |p| ==> p[|p| - |r| - 1] == '/'
  {
    p[RFind(p, '/') + 1..]
  }

  /** `s` is made of '/' only. */
  predicate AllSlashes(s: string) {
    forall i :: 0 <= i < |s| ==> s[i] == '/'
  }

  /**
   * `os.path.dirname(p)`: the head of `p` up to its last '/', with the
   * trailing slashes removed unless the head is nothing but slashes. So `p`
   * is the result, a run of slashes, and the basename; a result ending in
   * '/' is the whole head and made of slashes only (the root).
   */
  function DirName(p: string): (r: string)
    ensures r <= p && |r| <= |p| - |BaseName(p)|
    ensures r == "" <==> Lacks(p, '/')
    ensures forall i :: |r| <= i < |p| - |BaseName(p)| ==> p[i] == '/'
    ensures |r| > 0 && r[|r| - 1] == '/' ==> |r| == |p| - |BaseName(p)| && AllSlashes(r)
  {
    var head := p[..RFind(p, '/') + 1];
    assert head == "" <==> Lacks(p, '/');
    TrimHead(head)
  }

  /** What `dirname` does to the head: `rstrip('/')`, unless the head is empty or made of slashes only. */
  function TrimHead(head: string): (r: string)
    ensures r <= head
    ensures r == "" <==> head == ""
    ensures forall i :: |r| <= i < |head| ==> head[i] == '/'
    ensures |r| > 0 && r[|r| - 1] == '/' ==> r == head && AllSlashes(r)
  {
    if |head| > 0 && !AllSlashes(head) then
      RStripKeepsOther(head, '/');
      RStrip(head, '/')
    else head
  }

  /** `rstrip(c)` of a string holding another character than `c` is not empty. */
  lemma RStripKeepsOther(s: string, c: char)
    requires exists i :: 0 <= i < |s| && s[i] != c
    ensures |RStrip(s, c)| > 0
  {
  }

  /** The directory of a path joined from a directory and a slash-free name is that directory. */
  lemma DirNameOfJoin(dir: string, name: string)
    requires NoSlash(name)
    requires |dir| > 0 && dir[|dir| - 1] != '/'
    ensures DirName(PathJoin(dir, name)) == dir
  {
    var x := dir + "/";
    assert PathJoin(dir, name) == x + name;
    RFindSlashAfter(x, name);
    assert (x + name)[..|x|] == x;
    assert !AllSlashes(x) by {
      assert x[|dir| - 1] != '/';
    }
    assert x[..|x| - 1] == dir;
  }

  /**
   * `os.path.splitext(p)[0]`: `p` without its extension, the extension being
   * the text from the last '.' after the last '/', unless only dots precede
   * that '.' within the final component.
   */
  function StripExtension(p: string): (r: string)
    ensures r <= p
    ensures |r| < |p| ==> p[|r|] == '.' && NoSlash(p[|r|..]) && Lacks(p[|r| + 1..], '.')
    ensures |r| < |p| ==> exists k :: RFind(p, '/') < k < |r| && p[k] != '.'
    ensures |r| == |p| ==> forall d :: RFind(p, '/') < d < |p| && p[d] == '.' ==>
      forall k :: RFind(p, '/') < k < d ==> p[k] == '.'
  {
    var sep := RFind(p, '/');
    var dot := RFind(p, '.');
    if dot > sep && exists k :: sep < k < dot && p[k] != '.' then
      assert forall i :: dot <= i < |p| ==> p[i] != '/';
      p[..dot]
    else
      p
  }

  /** `splitext` takes `.mp4` off a slash-free name holding something other than dots. */
  lemma StripExtensionOfMp4(n: string)
    requires NoSlash(n)
    requires exists k :: 0 <= k < |n| && n[k] != '.'
    ensures StripExtension(n + ".mp4") == n
  {
    var p := n + ".mp4";
    assert p[|n|] == '.';
    assert p[|n| + 1..] == "mp4";
    assert forall i :: 0 <= i < |n| ==> p[i] == n[i];
    assert NoSlash(p);
    assert RFind(p, '.') == |n|;
    assert p[..|n|] == n;
  }

  /** The last '/' of `x + name` is the one that ends `x`, when `name` holds none. */
  lemma {:induction false} RFindSlashAfter(x: string, name: string)
    requires |x| == 0 || x[|x| - 1] == '/'
    requires NoSlash(name)
    ensures RFind(x + name, '/') == |x| - 1
    decreases |name|
  {
    if |name| > 0 {
      assert (x + name)[..|x + name| - 1] == x + name[..|name| - 1];
      RFindSlashAfter(x, name[..|name| - 1]);
    } else {
      assert x + name == x;
    }
  }

  /** The final component of a joined path is the name joined on, when that name holds no '/'. */
  lemma BaseNameOfJoin(dir: string, name: string)
    requires NoSlash(name)
    ensures BaseName(PathJoin(dir, name)) == name
  {
    var x := if |dir| == 0 || dir[|dir| - 1] == '/' then dir else dir + "/";
    assert PathJoin(dir, name) == x + name;
    RFindSlashAfter(x, name);
    assert (x + name)[|x|..] == name;
  }

  /** Joining one directory with two different slash-free names gives two different paths. */
  lemma PathJoinInjective(dir: string, n1: string, n2: string)
    requires NoSlash(n1) && NoSlash(n2)
    requires PathJoin(dir, n1) == PathJoin(dir, n2)
    ensures n1 == n2
  {
    BaseNameOfJoin(dir, n1);
    BaseNameOfJoin(dir, n2);
  }
}
