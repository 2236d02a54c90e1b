/** The POSIX path helpers the download driver uses: `join`, `basename` and `splitext`. */
module Paths {

  /** `s.rfind(c)`: the index of the last `c` in `s`, or -1 when there is none. */
  function RFind(s: string, c: char): (k: int)
    ensures -1 <= k < |s|
    ensures k >= 0 ==> s[k] == c
    ensures forall j :: k < j < |s| ==> s[j] != c
  {
    if s == [] then -1
    else if s[|s| - 1] == c then |s| - 1
    else RFind(s[..|s| - 1], c)
  }

  /** `os.path.join(a, b)`: an absolute `b` wins; otherwise one '/' separates the parts. */
  function Join(a: string, b: string): string {
    if b != [] && b[0] == '/' then b
    else if a == [] || a[|a| - 1] == '/' then a + b
    else a + "/" + b
  }

  /**
   * The joined path ends in `b`; unless `b` is absolute it starts with `a`, and a
   * separator sits between a non-empty `a` and a non-empty `b`.
   */
  lemma JoinShape(a: string, b: string)
    ensures var p := Join(a, b); |b| <= |p| && p[|p| - |b|..] == b
    ensures var p := Join(a, b); (b == [] || b[0] != '/') ==> |a| <= |p| && p[..|a|] == a
    ensures var p := Join(a, b);
      (b == [] || b[0] != '/') && a != [] && b != [] ==> |b| < |p| && p[|p| - |b| - 1] == '/'
  {
    var p := Join(a, b);
    if b == [] || b[0] != '/' {
      if a == [] || a[|a| - 1] == '/' {
        assert p == a + b;
      } else {
        assert p == a + "/" + b;
      }
    }
  }

  /** `os.path.basename(p)`: everything after the last '/'. */
  function Basename(p: string): (b: string)
    ensures '/' !in b
    ensures |b| <= |p| && b == p[|p| - |b|..]
    ensures |b| < |p| ==> p[|p| - |b| - 1] == '/'
  {
    p[RFind(p, '/') + 1..]
  }

  /**
   * `os.path.splitext(p)[0]`: `p` without its extension. The extension starts at the last
   * '.' after the last '/', and only when some character before that dot in the final
   * component is not a dot (so ".bashrc" and "..refs" have no extension).
   */
  function StripExtension(p: string): (r: string)
    ensures |r| <= |p| && r == p[..|r|]
    ensures r != p ==> p[|r|] == '.' && '/' !in p[|r|..] && '.' !in p[|r| + 1..]
  {
    var sep := RFind(p, '/');
    var dot := RFind(p, '.');
    if dot > sep && exists j :: sep + 1 <= j < dot && p[j] != '.' then
      assert forall k :: dot <= k < |p| ==> p[k] != '/';
      assert forall k :: dot < k < |p| ==> p[k] != '.';
      p[..dot]
    else p
  }

  /** The subject of a refs file: its base name without the extension. */
  function Subject(refsPath: string): (s: string)
    ensures '/' !in s
  {
    var b := Basename(refsPath);
    var s := StripExtension(b);
    assert s == b || s == b[..RFind(b, '.')];
    s
  }

  /**
   * A file `<dir>/<name>.<ext>` has subject `<name>`, whatever the directory and whatever
   * the extension's case (".refs", ".REFS", ".txt", or an empty one after a final dot).
   */
  lemma SubjectOfNamedFile(dir: string, name: string, ext: string)
    requires '/' !in name && exists j :: 0 <= j < |name| && name[j] != '.'
    requires '/' !in ext && '.' !in ext
    ensures Subject(Join(dir, name + "." + ext)) == name
  {
    var file := name + "." + ext;
    assert '/' !in file by {
      assert forall i :: 0 <= i < |file| ==>
        file[i] == if i < |name| then name[i] else if i == |name| then '.' else ext[i - |name| - 1];
    }
    BasenameOfJoin(dir, file);
    StripNamedExtension(name, ext);
  }

  /** A file name without an extension is its own subject, whatever the directory. */
  lemma SubjectOfPlainFile(dir: string, file: string)
    requires '/' !in file && file != []
    requires forall j :: 0 <= j < RFind(file, '.') ==> file[j] == '.'
    ensures Subject(Join(dir, file)) == file
  {
    BasenameOfJoin(dir, file);
    StripKept(file);
  }

  /**
   * `splitext("<name>.<ext>")[0]` is `<name>` for a '/'-free name that is not all dots and
   * an extension without '.' or '/'.
   */
  lemma StripNamedExtension(name: string, ext: string)
    requires '/' !in name && exists j :: 0 <= j < |name| && name[j] != '.'
    requires '/' !in ext && '.' !in ext
    ensures StripExtension(name + "." + ext) == name
  {
    var file := name + "." + ext;
    assert forall i :: 0 <= i < |file| ==>
      file[i] == if i < |name| then name[i] else if i == |name| then '.' else ext[i - |name| - 1];
    assert RFind(file, '/') == -1;
    assert file[|name|] == '.';
    assert forall k :: |name| < k < |file| ==> file[k] == ext[k - |name| - 1] && file[k] != '.';
    assert RFind(file, '.') == |name|;
    var j :| 0 <= j < |name| && name[j] != '.';
    assert file[j] != '.';
    assert file[..|name|] == name;
  }

  /**
   * `splitext` leaves a '/'-free name alone when it has no '.', or when everything before
   * its last '.' is dots (".bashrc", "..refs").
   */
  lemma StripKept(file: string)
    requires '/' !in file
    requires forall j :: 0 <= j < RFind(file, '.') ==> file[j] == '.'
    ensures StripExtension(file) == file
  {
    assert RFind(file, '/') == -1;
  }

  lemma BasenameOfJoin(dir: string, file: string)
    requires '/' !in file && file != []
    ensures Basename(Join(dir, file)) == file
  {
    var p := Join(dir, file);
    assert p[|p| - |file|..] == file;
    assert |p| > |file| ==> p[|p| - |file| - 1] == '/';
    var k := RFind(p, '/');
    assert forall j :: |p| - |file| <= j < |p| ==> p[j] == file[j - (|p| - |file|)];
    assert k == |p| - |file| - 1;
  }

  /** Two relative names joined to the same directory give the same path only when they are equal. */
  lemma JoinInjective(dir: string, x: string, y: string)
    requires x != [] && x[0] != '/' && y != [] && y[0] != '/'
    requires Join(dir, x) == Join(dir, y)
    ensures x == y
  {
    var p := Join(dir, x);
    var n := |p| - |x|;
    assert p[n..] == x;
    assert p[|p| - |y|..] == y;
  }
}
