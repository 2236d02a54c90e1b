/**
 * The `run` command of src/fhtoolkit/query.py and its `_write_file`: the mode check, the
 * catalogue read, the category index, and the refs files each mode writes.
 *
 * The catalogue download is not modelled: `run` is given the parser's events. The file
 * system is a map from path to contents; directories are not modelled.
 */
module Query {
  import opened Wrappers
  import opened Text
  import opened Order
  import Paths
  import Refs
  import opened Catalog
  import opened Categories

  /**
   * The options `run` reads. A missing `-c` list is `[]` and a missing `--merge-to` is `""`,
   * which `run` treats exactly as it treats absent values.
   */
  datatype QueryArgs = QueryArgs(
    categories: seq<string>, all: bool, dumpCategories: bool,
    arch: string, branch: string, out: string, mergeTo: string)

  /**
   * What `run` leaves behind: its exit code, the files, the category counts it lists
   * (dump mode only), the categories it warns have no matches, and those it notes had 0 refs.
   */
  datatype Outcome = Outcome(
    code: int, files: map<string, string>, counts: map<string, nat>,
    unknown: seq<string>, empty: seq<string>)

  // ---------------------------------------------------------------------------------------
  // `_write_file`.

  /** The contents `_write_file` gives a file for the given set of lines: sorted, one per line. */
  ghost function FileOf(lines: set<string>): string {
    Render(SortedSeq(lines))
  }

  /**
   * `_write_file(path, lines)`: the distinct lines, in code-point order, each followed by
   * "\n", replace whatever `path` held; the count it reports is the number of distinct lines.
   */
  method WriteFile(files: map<string, string>, path: string, lines: seq<string>)
    returns (files': map<string, string>, count: nat)
    ensures files' == files[path := FileOf(Elems(lines))]
    ensures count == |Elems(lines)|
  {
    var uniq := SortedDistinct(lines);
    var content := "";
    for i := 0 to |uniq|
      invariant content + Render(uniq[i..]) == Render(uniq)
    {
      assert uniq[i..][1..] == uniq[i + 1..];
      assert content + Render(uniq[i..]) == (content + uniq[i] + "\n") + Render(uniq[i + 1..]);
      content := content + uniq[i] + "\n";
    }
    assert content + [] == content;
    SortedSeqLength(Elems(lines));
    files' := files[path := content];
    count := |uniq|;
  }

  /**
   * Reading a written file back line by line gives its distinct lines in order, each with
   * its "\n", as long as no line holds a "\n" of its own.
   */
  lemma FileOfLines(lines: set<string>)
    requires forall l :: l in lines ==> '\n' !in l
    ensures Lines(FileOf(lines)) == Terminated(SortedSeq(lines))
    ensures StrictlySorted(SortedSeq(lines)) && |SortedSeq(lines)| == |lines|
  {
    var s := SortedSeq(lines);
    assert forall i :: 0 <= i < |s| ==> s[i] in lines;
    LinesRender(s);
    SortedSeqLength(lines);
  }

  // ---------------------------------------------------------------------------------------
  // Refs of identifiers.

  /** `by_cat.get(category, [])`. */
  function Get(byCat: map<string, set<string>>, k: string): set<string> {
    if k in byCat then byCat[k] else {}
  }

  /** The refs `make_ref` gives for a set of identifiers. */
  function RefsOf(ids: set<string>, arch: string, branch: string): (refs: set<string>)
    ensures refs == {} <==> ids == {}
  {
    var refs := set a | a in ids :: MakeRef(a, arch, branch);
    assert ids != {} ==> var a :| a in ids; MakeRef(a, arch, branch) in refs;
    refs
  }

  lemma RefsOfUnion(a: set<string>, b: set<string>, arch: string, branch: string)
    ensures RefsOf(a + b, arch, branch) == RefsOf(a, arch, branch) + RefsOf(b, arch, branch)
  {
  }

  /** `[make_ref(app_id, arch, branch) for app_id in ids]`, for the identifiers in code-point order. */
  method RefList(ids: set<string>, arch: string, branch: string) returns (refs: seq<string>)
    ensures Elems(refs) == RefsOf(ids, arch, branch)
    ensures refs == [] <==> ids == {}
  {
    var idList := SortSet(ids);
    refs := seq(|idList|, j requires 0 <= j < |idList| => MakeRef(idList[j], arch, branch));
    forall y | y in RefsOf(ids, arch, branch) ensures y in refs {
      var a :| a in ids && y == MakeRef(a, arch, branch);
      var j :| 0 <= j < |idList| && idList[j] == a;
      assert refs[j] == y;
    }
    assert idList != [] ==> idList[0] in ids;
    if ids != {} {
      var a :| a in ids;
      assert a in idList;
    }
  }

  /**
   * A refs file written for a set of identifiers is read back by the download side as
   * exactly those identifiers, provided each identifier is dotted and, like the architecture
   * and the branch, a non-empty field without '/' or "\n", and the branch is not all
   * whitespace.
   */
  lemma RefsFileRoundTrip(ids: set<string>, arch: string, branch: string)
    requires forall a :: a in ids ==> Refs.Segment(a) && '.' in a && '\n' !in a
    requires Refs.Segment(arch) && Refs.Segment(branch) && '\n' !in arch && '\n' !in branch
    requires exists j :: 0 <= j < |branch| && !IsSpace(branch[j])
    ensures Refs.RefIds(Lines(FileOf(RefsOf(ids, arch, branch)))) == ids
  {
    var refs := RefsOf(ids, arch, branch);
    forall l | l in refs ensures '\n' !in l {
      var a :| a in ids && l == MakeRef(a, arch, branch);
      NoNewline(a, arch, branch);
    }
    FileOfLines(refs);
    var s := SortedSeq(refs);
    var lines := Terminated(s);
    forall a | a in Refs.RefIds(lines) ensures a in ids {
      Refs.RefIdsSource(lines, a);
      var i :| 0 <= i < |lines| && Refs.ParseLine(lines[i]) == Some(a);
      assert s[i] in refs;
      var b :| b in ids && s[i] == MakeRef(b, arch, branch);
      MakeRefRoundTrip(b, arch, branch);
    }
    forall a | a in ids ensures a in Refs.RefIds(lines) {
      assert MakeRef(a, arch, branch) in refs;
      var i :| 0 <= i < |s| && s[i] == MakeRef(a, arch, branch);
      MakeRefRoundTrip(a, arch, branch);
      Refs.RefIdsHas(lines, i);
    }
  }

  lemma NoNewline(a: string, arch: string, branch: string)
    requires '\n' !in a && '\n' !in arch && '\n' !in branch
    ensures '\n' !in MakeRef(a, arch, branch)
  {
  }

  // ---------------------------------------------------------------------------------------
  // What each mode writes.

  /** One refs file per category, in the given order: `<out>/<category>.refs` with its refs. */
  ghost function CategoryWrites(byCat: map<string, set<string>>, cats: seq<string>, args: QueryArgs)
    : (ws: seq<(string, string)>)
    ensures |ws| == |cats|
  {
    if cats == [] then []
    else
      var k := cats[|cats| - 1];
      CategoryWrites(byCat, cats[..|cats| - 1], args)
        + [(Paths.Join(args.out, k + ".refs"), FileOf(RefsOf(Get(byCat, k), args.arch, args.branch)))]
  }

  /** The files after a sequence of writes, each replacing what its path held. */
  function Apply(files: map<string, string>, ws: seq<(string, string)>): map<string, string> {
    if ws == [] then files
    else Apply(files, ws[..|ws| - 1])[ws[|ws| - 1].0 := ws[|ws| - 1].1]
  }

  /** `[c for c in selected if c not in by_cat]`. */
  function Missing(selected: seq<string>, byCat: map<string, set<string>>): (m: seq<string>)
    ensures forall c :: c in m <==> c in selected && c !in byCat
    ensures |m| <= |selected|
  {
    if selected == [] then []
    else
      var c := selected[|selected| - 1];
      assert selected == selected[..|selected| - 1] + [c];
      Missing(selected[..|selected| - 1], byCat) + (if c !in byCat then [c] else [])
  }

  /** The selected categories whose refs list is empty, each noted. */
  function Empties(selected: seq<string>, byCat: map<string, set<string>>): (e: seq<string>)
    ensures forall c :: c in e <==> c in selected && Get(byCat, c) == {}
    ensures |e| <= |selected|
  {
    if selected == [] then []
    else
      var c := selected[|selected| - 1];
      assert selected == selected[..|selected| - 1] + [c];
      Empties(selected[..|selected| - 1], byCat) + (if Get(byCat, c) == {} then [c] else [])
  }

  /** The identifiers of all the selected categories together. */
  function Union(byCat: map<string, set<string>>, selected: seq<string>): set<string> {
    if selected == [] then {}
    else Union(byCat, selected[..|selected| - 1]) + Get(byCat, selected[|selected| - 1])
  }

  /** Some mode was asked for: `--dump-categories`, `--all` or at least one `-c`. */
  predicate HasMode(args: QueryArgs) {
    args.dumpCategories || args.all || args.categories != []
  }

  /**
   * What `run` does, as a function of its options, the catalogue's events and the files
   * before; `None` is the parse error an empty event stream raises.
   */
  ghost function Spec(args: QueryArgs, events: seq<Event>, files: map<string, string>): Option<Outcome> {
    if !HasMode(args) then Some(Outcome(2, files, map[], [], []))
    else if events == [] then None
    else
      var comps := Components(events[1..]);
      var byCat := ByCat(comps);
      if args.dumpCategories then Some(Outcome(0, files, Counter(comps), [], []))
      else if args.all then
        Some(Outcome(0, Apply(files, CategoryWrites(byCat, SortedSeq(byCat.Keys), args)), map[], [], []))
      else
        var selected := NormalizeAll(args.categories);
        var unknown := Missing(selected, byCat);
        if args.mergeTo != [] then
          var path := Paths.Join(args.out, args.mergeTo);
          Some(Outcome(0, files[path := FileOf(RefsOf(Union(byCat, selected), args.arch, args.branch))], map[], unknown, []))
        else
          Some(Outcome(0, Apply(files, CategoryWrites(byCat, selected, args)), map[], unknown, Empties(selected, byCat)))
  }

  // ---------------------------------------------------------------------------------------
  // `run`.

  /**
   * `run(args)`: with no mode it exits with 2 before reading anything; otherwise it reads the
   * catalogue, builds the index, and then lists the counts (`--dump-categories`), writes one
   * file per category (`--all`), one merged file (`--merge-to`), or one file per selected
   * category, exiting with 0.
   */
  method Run(args: QueryArgs, events: seq<Event>, files0: map<string, string>) returns (r: Result<Outcome, string>)
    ensures r.Failure? <==> Spec(args, events, files0).None?
    ensures r.Success? ==> r.value == Spec(args, events, files0).value
    ensures !HasMode(args) ==> r == Success(Outcome(2, files0, map[], [], []))
    ensures r.Failure? ==> events == []
    ensures r.Success? && args.dumpCategories ==> r.value.files == files0
  {
    if !args.dumpCategories && !args.all && args.categories == [] {
      return Success(Outcome(2, files0, map[], [], []));
    }
    var parsed := IterComponents(events);
    if parsed.Failure? {
      return Failure(parsed.error);
    }
    var byCat, counter := Aggregate(parsed.value);
    if args.dumpCategories {
      return Success(Outcome(0, files0, counter, [], []));
    }
    var files := files0;
    if args.all {
      var keys := SortSet(byCat.Keys);
      files := WriteCategories(files, byCat, keys, args);
      return Success(Outcome(0, files, map[], [], []));
    }
    var selected := NormalizeAll(args.categories);
    var unknown := MissingOf(selected, byCat);
    if args.mergeTo != [] {
      var merged := MergeRefs(byCat, selected, args.arch, args.branch);
      var count;
      files, count := WriteFile(files, Paths.Join(args.out, args.mergeTo), merged);
      return Success(Outcome(0, files, map[], unknown, []));
    }
    var empty;
    files, empty := WriteSelected(files, byCat, selected, args);
    return Success(Outcome(0, files, map[], unknown, empty));
  }

  /** The `--merge-to` loop: the refs of every selected category, gathered in one list. */
  method MergeRefs(byCat: map<string, set<string>>, selected: seq<string>, arch: string, branch: string)
    returns (merged: seq<string>)
    ensures Elems(merged) == RefsOf(Union(byCat, selected), arch, branch)
  {
    merged := [];
    for i := 0 to |selected|
      invariant Elems(merged) == RefsOf(Union(byCat, selected[..i]), arch, branch)
    {
      var refs := RefList(Get(byCat, selected[i]), arch, branch);
      assert selected[..i + 1][..i] == selected[..i];
      RefsOfUnion(Union(byCat, selected[..i]), Get(byCat, selected[i]), arch, branch);
      merged := merged + refs;
    }
    assert selected[..|selected|] == selected;
  }

  /** The per-category loop: one refs file per selected category, noting those with no refs. */
  method WriteSelected(files0: map<string, string>, byCat: map<string, set<string>>, selected: seq<string>, args: QueryArgs)
    returns (files: map<string, string>, empty: seq<string>)
    ensures files == Apply(files0, CategoryWrites(byCat, selected, args))
    ensures empty == Empties(selected, byCat)
  {
    files, empty := files0, [];
    for i := 0 to |selected|
      invariant files == Apply(files0, CategoryWrites(byCat, selected[..i], args))
      invariant empty == Empties(selected[..i], byCat)
    {
      var category := selected[i];
      var refs := RefList(Get(byCat, category), args.arch, args.branch);
      assert selected[..i + 1][..i] == selected[..i];
      if refs == [] {
        empty := empty + [category];
      }
      var count;
      files, count := WriteFile(files, Paths.Join(args.out, category + ".refs"), refs);
    }
    assert selected[..|selected|] == selected;
  }

  /** `[c for c in selected if c not in by_cat]`, built one category at a time. */
  method MissingOf(selected: seq<string>, byCat: map<string, set<string>>) returns (unknown: seq<string>)
    ensures unknown == Missing(selected, byCat)
  {
    unknown := [];
    for i := 0 to |selected|
      invariant unknown == Missing(selected[..i], byCat)
    {
      assert selected[..i + 1][..i] == selected[..i];
      if selected[i] !in byCat {
        unknown := unknown + [selected[i]];
      }
    }
    assert selected[..|selected|] == selected;
  }

  /** The `--all` loop: one refs file per category, in the order given. */
  method WriteCategories(files0: map<string, string>, byCat: map<string, set<string>>, keys: seq<string>, args: QueryArgs)
    returns (files: map<string, string>)
    ensures files == Apply(files0, CategoryWrites(byCat, keys, args))
  {
    files := files0;
    for i := 0 to |keys|
      invariant files == Apply(files0, CategoryWrites(byCat, keys[..i], args))
    {
      var refs := RefList(Get(byCat, keys[i]), args.arch, args.branch);
      assert keys[..i + 1][..i] == keys[..i];
      var count;
      files, count := WriteFile(files, Paths.Join(args.out, keys[i] + ".refs"), refs);
    }
    assert keys[..|keys|] == keys;
  }

  // ---------------------------------------------------------------------------------------
  // What the writes leave in the files.

  lemma {:induction false} CategoryWritesAt(byCat: map<string, set<string>>, cats: seq<string>, args: QueryArgs, i: nat)
    requires i < |cats|
    ensures CategoryWrites(byCat, cats, args)[i] ==
      (Paths.Join(args.out, cats[i] + ".refs"), FileOf(RefsOf(Get(byCat, cats[i]), args.arch, args.branch)))
  {
    if i < |cats| - 1 {
      CategoryWritesAt(byCat, cats[..|cats| - 1], args, i);
    }
  }

  /** A path no write names keeps what it held (or stays absent). */
  lemma {:induction false} ApplyUntouched(files: map<string, string>, ws: seq<(string, string)>, p: string)
    requires forall i :: 0 <= i < |ws| ==> ws[i].0 != p
    ensures p in Apply(files, ws) <==> p in files
    ensures p in files ==> Apply(files, ws)[p] == files[p]
  {
    if ws != [] {
      ApplyUntouched(files, ws[..|ws| - 1], p);
    }
  }

  /** A path that is written, always with the same contents, ends up with those contents. */
  lemma {:induction false} ApplyWritten(files: map<string, string>, ws: seq<(string, string)>, p: string, v: string)
    requires exists i :: 0 <= i < |ws| && ws[i].0 == p
    requires forall i :: 0 <= i < |ws| && ws[i].0 == p ==> ws[i].1 == v
    ensures p in Apply(files, ws) && Apply(files, ws)[p] == v
  {
    var n := |ws| - 1;
    if ws[n].0 != p {
      var i :| 0 <= i < |ws| && ws[i].0 == p;
      assert ws[..n][i] == ws[i];
      ApplyWritten(files, ws[..n], p, v);
    }
  }

  /** A category name that `os.path.join` keeps under the output directory. */
  predicate Relative(k: string) {
    k == [] || k[0] != '/'
  }

  /**
   * After the per-category writes, the file of each category holds exactly its refs (an
   * empty file when it has none), and every other path is as it was; category names must
   * not start with '/', which would make `os.path.join` leave the output directory.
   */
  lemma CategoryFiles(files: map<string, string>, byCat: map<string, set<string>>, cats: seq<string>, args: QueryArgs)
    requires forall j :: 0 <= j < |cats| ==> Relative(cats[j])
    ensures forall i :: 0 <= i < |cats| ==>
      var p := Paths.Join(args.out, cats[i] + ".refs");
      p in Apply(files, CategoryWrites(byCat, cats, args))
      && Apply(files, CategoryWrites(byCat, cats, args))[p] == FileOf(RefsOf(Get(byCat, cats[i]), args.arch, args.branch))
    ensures forall p :: (forall j :: 0 <= j < |cats| ==> p != Paths.Join(args.out, cats[j] + ".refs")) ==>
      (p in Apply(files, CategoryWrites(byCat, cats, args)) <==> p in files)
      && (p in files ==> Apply(files, CategoryWrites(byCat, cats, args))[p] == files[p])
  {
    var ws := CategoryWrites(byCat, cats, args);
    forall i | 0 <= i < |cats|
      ensures var p := Paths.Join(args.out, cats[i] + ".refs");
        p in Apply(files, ws) && Apply(files, ws)[p] == FileOf(RefsOf(Get(byCat, cats[i]), args.arch, args.branch))
    {
      var p := Paths.Join(args.out, cats[i] + ".refs");
      var v := FileOf(RefsOf(Get(byCat, cats[i]), args.arch, args.branch));
      CategoryWritesAt(byCat, cats, args, i);
      forall j | 0 <= j < |ws| && ws[j].0 == p ensures ws[j].1 == v {
        CategoryWritesAt(byCat, cats, args, j);
        assert (cats[j] + ".refs")[0] == if cats[j] == [] then '.' else cats[j][0];
        assert (cats[i] + ".refs")[0] == if cats[i] == [] then '.' else cats[i][0];
        Paths.JoinInjective(args.out, cats[j] + ".refs", cats[i] + ".refs");
        assert cats[j] == (cats[j] + ".refs")[..|cats[j]|];
        assert cats[i] == (cats[i] + ".refs")[..|cats[i]|];
      }
      ApplyWritten(files, ws, p, v);
    }
    forall p | forall j :: 0 <= j < |cats| ==> p != Paths.Join(args.out, cats[j] + ".refs")
      ensures (p in Apply(files, ws) <==> p in files) && (p in files ==> Apply(files, ws)[p] == files[p])
    {
      forall i | 0 <= i < |ws| ensures ws[i].0 != p {
        CategoryWritesAt(byCat, cats, args, i);
      }
      ApplyUntouched(files, ws, p);
    }
  }

  /** `--all`: one file per index key, holding the refs of exactly the identifiers filed under it. */
  lemma AllModeFiles(args: QueryArgs, events: seq<Event>, files: map<string, string>, k: string)
    requires args.all && !args.dumpCategories && events != []
    requires var byCat := ByCat(Components(events[1..])); k in byCat && forall key :: key in byCat ==> Relative(key)
    ensures var byCat := ByCat(Components(events[1..])); var o := Spec(args, events, files);
      var p := Paths.Join(args.out, k + ".refs");
      o.Some? && o.value.code == 0 && p in o.value.files
      && o.value.files[p] == FileOf(RefsOf(byCat[k], args.arch, args.branch))
  {
    var byCat := ByCat(Components(events[1..]));
    var keys := SortedSeq(byCat.Keys);
    CategoryFiles(files, byCat, keys, args);
    var i :| 0 <= i < |keys| && keys[i] == k;
  }

  /** Per category: every selected category gets its file, even one with no refs. */
  lemma SelectedModeFiles(args: QueryArgs, events: seq<Event>, files: map<string, string>, i: nat)
    requires !args.all && !args.dumpCategories && args.mergeTo == [] && events != []
    requires i < |args.categories|
    requires forall j :: 0 <= j < |args.categories| ==> Relative(NormalizeCategory(args.categories[j]))
    ensures var byCat := ByCat(Components(events[1..])); var o := Spec(args, events, files);
      var c := NormalizeCategory(args.categories[i]);
      var p := Paths.Join(args.out, c + ".refs");
      o.Some? && o.value.code == 0 && p in o.value.files
      && o.value.files[p] == FileOf(RefsOf(Get(byCat, c), args.arch, args.branch))
      && (c !in byCat ==> o.value.files[p] == [])
  {
    var byCat := ByCat(Components(events[1..]));
    var selected := NormalizeAll(args.categories);
    CategoryFiles(files, byCat, selected, args);
    assert selected[i] == NormalizeCategory(args.categories[i]);
    SortedSeqLength({});
  }

  /** An identifier is merged exactly when it is filed under some selected category. */
  lemma {:induction false} UnionMembers(byCat: map<string, set<string>>, selected: seq<string>, a: string)
    ensures a in Union(byCat, selected) <==> exists i :: 0 <= i < |selected| && selected[i] in byCat && a in byCat[selected[i]]
  {
    if selected != [] {
      var n := |selected| - 1;
      UnionMembers(byCat, selected[..n], a);
      if exists i :: 0 <= i < |selected| && selected[i] in byCat && a in byCat[selected[i]] {
        var i :| 0 <= i < |selected| && selected[i] in byCat && a in byCat[selected[i]];
        if i < n {
          assert selected[..n][i] == selected[i];
        }
      }
      if a in Union(byCat, selected[..n]) {
        var i :| 0 <= i < n && selected[..n][i] in byCat && a in byCat[selected[..n][i]];
        assert selected[i] == selected[..n][i];
      }
    }
  }

  /** Under the index `run` builds, "had 0 refs" is noted exactly for the unknown categories. */
  lemma {:induction false} EmptiesAreMissing(comps: seq<Component>, selected: seq<string>)
    ensures Empties(selected, ByCat(comps)) == Missing(selected, ByCat(comps))
  {
    if selected != [] {
      var c := selected[|selected| - 1];
      EmptiesAreMissing(comps, selected[..|selected| - 1]);
      if c in ByCat(comps) {
        CatIdsNonEmpty(Filings(comps), c);
      }
    }
  }
}
