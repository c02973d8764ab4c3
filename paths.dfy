/** The POSIX `os.path` functions the loader calls, with '/' as the only
    separator. */
module Paths {
  import opened Strings

  const SEP: char := '/'

  /** `os.path.basename(p)`: everything after the last separator. */
  function Basename(p: string): string
    decreases |p|
  {
    if p == [] || p[|p| - 1] == SEP then []
    else Basename(p[..|p| - 1]) + [p[|p| - 1]]
  }

  /** The base name is the longest separator-free suffix: it has no
      separator, it ends `p`, and whatever precedes it is a separator. */
  lemma {:induction false} BasenameSpec(p: string)
    ensures SEP !in Basename(p)
    ensures |Basename(p)| <= |p| && Basename(p) == p[|p| - |Basename(p)|..]
    ensures |Basename(p)| < |p| ==> p[|p| - |Basename(p)| - 1] == SEP
    decreases |p|
  {
    if p != [] && p[|p| - 1] != SEP {
      var init := p[..|p| - 1];
      BasenameSpec(init);
      assert p[|p| - |Basename(p)|..] == init[|init| - |Basename(init)|..] + [p[|p| - 1]];
    }
  }

  /** `os.path.join(root, name)`: an absolute `name` replaces `root`;
      otherwise a separator is put between them unless `root` is empty or
      already ends with one. */
  function Join(root: string, name: string): (r: string)
    ensures EndsWith(r, name)
    ensures !StartsWith(name, [SEP]) ==> StartsWith(r, root)
  {
    if StartsWith(name, [SEP]) then name
    else if root == [] || EndsWith(root, [SEP]) then root + name
    else root + [SEP] + name
  }

  /** The base name of a separator-free name placed after a directory part
      (empty, or ending in a separator) is that name. */
  lemma {:induction false} BasenameAfterDir(dir: string, name: string)
    requires SEP !in name
    requires dir == [] || dir[|dir| - 1] == SEP
    ensures Basename(dir + name) == name
    decreases |name|
  {
    if name == [] {
      assert dir + name == dir;
    } else {
      var init := name[..|name| - 1];
      assert (dir + name)[..|dir + name| - 1] == dir + init;
      BasenameAfterDir(dir, init);
      assert name == init + [name[|name| - 1]];
    }
  }

  /** Joining a file name (no separator in it) onto its directory and taking
      the base name gives the file name back. */
  lemma BasenameOfJoin(root: string, name: string)
    requires SEP !in name
    ensures Basename(Join(root, name)) == name
  {
    assert name != [] ==> name[0] in name;
    if root == [] || EndsWith(root, [SEP]) {
      BasenameAfterDir(root, name);
    } else {
      assert root + [SEP] + name == (root + [SEP]) + name;
      BasenameAfterDir(root + [SEP], name);
    }
  }
}
