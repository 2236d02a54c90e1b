/**
 * Reading refs lists (src/fhtoolkit/download.py): the `app/<id>/<arch>/<branch>` line
 * grammar, `parse_refs_file`, `collect_app_ids` and `find_refs_in_dir`.
 *
 * A file system is a map from path to text; a path that is not in the map does not exist
 * (Python raises FileNotFoundError). Directory listings are a map from directory path to
 * the names `os.listdir` returns.
 */
module Refs {
  import opened Wrappers
  import opened Text
  import opened Order
  import Paths

  /** The three groups of `REF_LINE_RE`. */
  datatype RefParts = RefParts(appId: string, arch: string, branch: string)

  /** What `[^/]+` accepts: at least one character, none of them '/'. */
  predicate Segment(s: string) {
    s != [] && '/' !in s
  }

  /** The line `app/<appId>/<arch>/<branch>`. */
  function RefLine(appId: string, arch: string, branch: string): string {
    "app/" + appId + "/" + arch + "/" + branch
  }

  /**
   * `REF_LINE_RE.match(s)`, i.e. `^\s*app/([^/]+)/([^/]+)/([^/]+)\s*$`, with its groups.
   * The third group is greedy and may swallow trailing whitespace, which the trailing
   * `\s*` then matches as empty.
   */
  function MatchRefLine(s: string): (m: Option<RefParts>)
    ensures m.Some? ==>
      && Segment(m.value.appId) && Segment(m.value.arch) && Segment(m.value.branch)
      && TrimLeft(s) == RefLine(m.value.appId, m.value.arch, m.value.branch)
  {
    var parts := Split(TrimLeft(s), '/');
    if |parts| == 4 && parts[0] == "app" && parts[1] != [] && parts[2] != [] && parts[3] != [] then
      JoinFour(parts);
      Some(RefParts(parts[1], parts[2], parts[3]))
    else
      None
  }

  /** Any leading whitespace, then `app/A/B/C` with three slash-free non-empty fields, matches. */
  lemma MatchRefLineComplete(w: string, appId: string, arch: string, branch: string)
    requires AllSpace(w)
    requires Segment(appId) && Segment(arch) && Segment(branch)
    ensures MatchRefLine(w + RefLine(appId, arch, branch)) == Some(RefParts(appId, arch, branch))
  {
    var line := RefLine(appId, arch, branch);
    TrimLeftPadded(w, line);
    var parts := ["app", appId, arch, branch];
    JoinFour(parts);
    SplitJoin(parts, '/');
  }

  lemma JoinFour(parts: seq<string>)
    requires |parts| == 4 && parts[0] == "app"
    ensures Join(parts, '/') == RefLine(parts[1], parts[2], parts[3])
  {
    assert parts[1..][1..] == parts[2..] && parts[2..][1..] == parts[3..];
    assert Join(parts[3..], '/') == parts[3];
    assert Join(parts[2..], '/') == parts[2] + "/" + parts[3];
    assert Join(parts[1..], '/') == parts[1] + "/" + (parts[2] + "/" + parts[3]);
  }

  /**
   * One line of a refs file, as `parse_refs_file` treats it: strip it; skip it when it is
   * blank or starts with '#', when the grammar does not match, or when the identifier has
   * no '.'; otherwise it yields the identifier.
   */
  function ParseLine(line: string): (r: Option<string>)
    ensures r.Some? ==> '.' in r.value
  {
    var s := Strip(line);
    if s == [] || s[0] == '#' then None
    else match MatchRefLine(s)
      case None => None
      case Some(parts) => if '.' !in parts.appId then None else Some(parts.appId)
  }

  /** Blank lines and comment lines never yield an identifier. */
  lemma ParseLineSkips(line: string)
    requires Strip(line) == [] || Strip(line)[0] == '#'
    ensures ParseLine(line) == None
  {
  }

  /** A line yields `A` only when, stripped, it is exactly `app/A/B/C` with fields as the grammar wants. */
  lemma ParseLineSound(line: string)
    requires ParseLine(line).Some?
    ensures var a := ParseLine(line).value;
      && '.' in a
      && exists arch, branch ::
        Segment(a) && Segment(arch) && Segment(branch) && Strip(line) == RefLine(a, arch, branch)
  {
    var s := Strip(line);
    var parts := MatchRefLine(s).value;
    TrimLeftPadded([], s);
    assert [] + s == s;
    assert s == RefLine(parts.appId, parts.arch, parts.branch);
  }

  /** A stripped line that is exactly `app/A/B/C`, with a dotted `A`, yields `A`. */
  lemma ParseLineComplete(line: string, appId: string, arch: string, branch: string)
    requires Segment(appId) && Segment(arch) && Segment(branch) && '.' in appId
    requires Strip(line) == RefLine(appId, arch, branch)
    ensures ParseLine(line) == Some(appId)
  {
    MatchRefLineComplete([], appId, arch, branch);
    assert [] + RefLine(appId, arch, branch) == RefLine(appId, arch, branch);
  }

  /** The identifiers a list of lines contributes: a set, so repeats collapse. */
  function RefIds(lines: seq<string>): (ids: set<string>)
    ensures forall a :: a in ids ==> '.' in a
  {
    if lines == [] then {}
    else
      var last := ParseLine(lines[|lines| - 1]);
      RefIds(lines[..|lines| - 1]) + (if last.Some? then {last.value} else {})
  }

  /** Every identifier in the set comes from some line. */
  lemma {:induction false} RefIdsSource(lines: seq<string>, a: string)
    requires a in RefIds(lines)
    ensures exists i :: 0 <= i < |lines| && ParseLine(lines[i]) == Some(a)
  {
    var prefix := lines[..|lines| - 1];
    if a in RefIds(prefix) {
      RefIdsSource(prefix, a);
      var i :| 0 <= i < |prefix| && ParseLine(prefix[i]) == Some(a);
      assert lines[i] == prefix[i];
    } else {
      assert ParseLine(lines[|lines| - 1]) == Some(a);
    }
  }

  /** Every line that yields an identifier puts it in the set. */
  lemma {:induction false} RefIdsHas(lines: seq<string>, i: nat)
    requires i < |lines| && ParseLine(lines[i]).Some?
    ensures ParseLine(lines[i]).value in RefIds(lines)
  {
    var prefix := lines[..|lines| - 1];
    if i < |prefix| {
      assert prefix[i] == lines[i];
      RefIdsHas(prefix, i);
    }
  }

  /** The number of lines that yield an identifier. */
  function Accepted(lines: seq<string>): nat {
    if lines == [] then 0
    else Accepted(lines[..|lines| - 1]) + (if ParseLine(lines[|lines| - 1]).Some? then 1 else 0)
  }

  /** There are never more identifiers than accepted lines. */
  lemma {:induction false} RefIdsBound(lines: seq<string>)
    ensures |RefIds(lines)| <= Accepted(lines)
  {
    if lines != [] {
      RefIdsBound(lines[..|lines| - 1]);
    }
  }

  /** A line that repeats an earlier one adds nothing. */
  lemma RefIdsRepeat(lines: seq<string>, k: nat)
    requires k < |lines|
    ensures RefIds(lines + [lines[k]]) == RefIds(lines)
  {
    var more := lines + [lines[k]];
    assert more[..|more| - 1] == lines;
    if ParseLine(lines[k]).Some? {
      RefIdsHas(lines, k);
    }
  }

  /**
   * `parse_refs_file(path)`: `None` when the file does not exist (FileNotFoundError),
   * otherwise the set of identifiers its lines yield.
   */
  method ParseRefsFile(files: map<string, string>, path: string) returns (r: Option<set<string>>)
    ensures path !in files <==> r == None
    ensures path in files ==> r == Some(RefIds(Lines(files[path])))
  {
    if path !in files {
      return None;
    }
    var lines := Lines(files[path]);
    var ids: set<string> := {};
    for i := 0 to |lines|
      invariant ids == RefIds(lines[..i])
    {
      var stripped := Strip(lines[i]);
      assert lines[..i + 1][..i] == lines[..i];
      if stripped == [] || stripped[0] == '#' {
        continue;
      }
      var m := MatchRefLine(stripped);
      if m.None? {
        continue;
      }
      var appId := m.value.appId;
      if '.' !in appId {
        continue;
      }
      ids := ids + {appId};
    }
    assert lines[..|lines|] == lines;
    return Some(ids);
  }

  /** Every identifier of every refs file that exists; missing files contribute nothing. */
  function UnionIds(files: map<string, string>, refsFiles: seq<string>): (ids: set<string>)
    ensures forall a :: a in ids ==> '.' in a
  {
    if refsFiles == [] then {}
    else
      var path := refsFiles[|refsFiles| - 1];
      UnionIds(files, refsFiles[..|refsFiles| - 1]) + (if path in files then RefIds(Lines(files[path])) else {})
  }

  /** An identifier is in the union exactly when some existing file yields it. */
  lemma {:induction false} UnionIdsMembers(files: map<string, string>, refsFiles: seq<string>, a: string)
    ensures a in UnionIds(files, refsFiles) <==>
      exists i :: 0 <= i < |refsFiles| && refsFiles[i] in files && a in RefIds(Lines(files[refsFiles[i]]))
  {
    if refsFiles != [] {
      var prefix := refsFiles[..|refsFiles| - 1];
      UnionIdsMembers(files, prefix, a);
      assert forall i :: 0 <= i < |prefix| ==> prefix[i] == refsFiles[i];
    }
  }

  /**
   * `collect_app_ids(refs_files)`: the union of all files' identifiers, sorted, each once.
   * A missing file only draws a warning.
   */
  method CollectAppIds(files: map<string, string>, refsFiles: seq<string>) returns (ids: seq<string>)
    ensures ids == SortedSeq(UnionIds(files, refsFiles))
  {
    var collected: set<string> := {};
    for i := 0 to |refsFiles|
      invariant collected == UnionIds(files, refsFiles[..i])
    {
      assert refsFiles[..i + 1][..i] == refsFiles[..i];
      var parsed := ParseRefsFile(files, refsFiles[i]);
      if parsed.Some? {
        collected := collected + parsed.value;
      }
    }
    assert refsFiles[..|refsFiles|] == refsFiles;
    ids := SortSet(collected);
  }

  /** `name.lower().endswith(".refs")`. */
  predicate IsRefsName(name: string)
    ensures EndsWith(name, ".refs") ==> IsRefsName(name)
    ensures IsRefsName(name) ==> |name| >= 5 && name[|name| - 5] == '.'
  {
    var low := Lower(name);
    assert EndsWith(name, ".refs") ==> EndsWith(low, ".refs") by {
      if EndsWith(name, ".refs") {
        assert forall k :: |name| - 5 <= k < |name| ==> low[k] == name[k];
        assert low[|low| - 5..] == name[|name| - 5..];
      }
    }
    assert EndsWith(low, ".refs") ==> name[|name| - 5] == '.' by {
      if EndsWith(low, ".refs") {
        assert low[|low| - 5..][0] == '.';
        assert LowerChar(name[|name| - 5]) == '.';
      }
    }
    EndsWith(low, ".refs")
  }

  /** The paths of the listed names that end in ".refs", in listing order. */
  function RefsPaths(dir: string, names: seq<string>): (ps: seq<string>)
    ensures forall p :: p in ps <==> exists n :: n in names && IsRefsName(n) && p == Paths.Join(dir, n)
  {
    if names == [] then []
    else
      var prefix := names[..|names| - 1];
      var n := names[|names| - 1];
      assert names == prefix + [n];
      RefsPaths(dir, prefix) + (if IsRefsName(n) then [Paths.Join(dir, n)] else [])
  }

  /**
   * `find_refs_in_dir(dir)`: `None` when the directory cannot be listed, otherwise every
   * entry whose lower-cased name ends in ".refs", joined to the directory, in sorted order.
   */
  method FindRefsInDir(dirs: map<string, seq<string>>, dir: string) returns (r: Option<seq<string>>)
    ensures dir !in dirs <==> r == None
    ensures dir in dirs ==> r == Some(SortedList(RefsPaths(dir, dirs[dir])))
  {
    if dir !in dirs {
      return None;
    }
    var names := dirs[dir];
    var result: seq<string> := [];
    for i := 0 to |names|
      invariant result == RefsPaths(dir, names[..i])
    {
      assert names[..i + 1][..i] == names[..i];
      if IsRefsName(names[i]) {
        result := result + [Paths.Join(dir, names[i])];
      }
    }
    assert names[..|names|] == names;
    var sorted := SortList(result);
    return Some(sorted);
  }
}
