/**
 The two `posixpath` operations the pipelines use to turn a folder and a file
 name into a local path, and a local path back into the file name that becomes
 the object-store key.
 */
module Paths {
  import opened Strings

  /** `os.path.join(folder, name)` on POSIX: an absolute `name` replaces the folder. */
  function PathJoin(folder: string, name: string): string {
    if StartsWith(name, "/") then name
    else if folder == "" || EndsWith(folder, "/") then folder + name
    else folder + "/" + name
  }

  /** Joining two relative names onto the same folder gives the same path only for the same name. */
  lemma PathJoinInjective(folder: string, a: string, b: string)
    requires !StartsWith(a, "/") && !StartsWith(b, "/")
    requires PathJoin(folder, a) == PathJoin(folder, b)
    ensures a == b
  {
    if folder == "" || EndsWith(folder, "/") {
      CancelPrefix(folder, a, b);
    } else {
      CancelPrefix(folder + "/", a, b);
    }
  }

  /** `os.path.basename(p)`: the longest suffix of `p` without a `/`. */
  function Basename(p: string): (r: string)
    ensures '/' !in r
    ensures EndsWith(p, r)
    ensures |r| == |p| || p[|p| - |r| - 1] == '/'
    decreases |p|
  {
    if |p| == 0 || p[|p| - 1] == '/' then ""
    else
      var init := p[..|p| - 1];
      var c := p[|p| - 1];
      SuffixSnoc(init, Basename(init), c);
      assert init + [c] == p;
      Basename(init) + [c]
  }

  /** A suffix that starts after a `/` still does once a character is appended to both. */
  lemma SuffixSnoc(s: string, b: string, c: char)
    requires EndsWith(s, b) && (|b| == |s| || s[|s| - |b| - 1] == '/')
    ensures EndsWith(s + [c], b + [c])
    ensures |s + [c]| - |b + [c]| - 1 < 0 || (s + [c])[|s + [c]| - |b + [c]| - 1] == '/'
  {
    assert (s + [c])[|s| - |b|..] == s[|s| - |b|..] + [c];
  }

  lemma {:induction false} BasenameAfterSeparator(dir: string, name: string)
    requires dir == "" || EndsWith(dir, "/")
    requires '/' !in name
    ensures Basename(dir + name) == name
    decreases |name|
  {
    var p := dir + name;
    if |name| == 0 {
      assert p == dir;
      assert p == "" || p[|p| - 1] == '/';
    } else {
      var init := name[..|name| - 1];
      var last := name[|name| - 1];
      assert last in name;
      assert p[..|p| - 1] == dir + init;
      assert p[|p| - 1] == last;
      assert '/' !in init by {
        forall c | c in init ensures c in name {
        }
      }
      BasenameAfterSeparator(dir, init);
      assert Basename(p) == Basename(dir + init) + [last];
      assert init + [last] == name;
    }
  }

  /** A file joined onto any folder keeps its own name as basename. */
  lemma BasenameOfJoin(folder: string, name: string)
    requires name != "" && '/' !in name
    ensures Basename(PathJoin(folder, name)) == name
  {
    assert !StartsWith(name, "/") by {
      assert name[0] != '/';
    }
    if folder == "" || EndsWith(folder, "/") {
      BasenameAfterSeparator(folder, name);
    } else {
      assert EndsWith(folder + "/", "/");
      BasenameAfterSeparator(folder + "/", name);
    }
  }
}
