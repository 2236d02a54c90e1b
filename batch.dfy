/**
 * The download driver (`run` and `_iter_subjects` in src/fhtoolkit/download.py): every refs
 * file names a subject; each subject's identifiers are fetched, in sorted order, into
 * `<out>/<subject>/`, with a global cap on successes and a memory of the pairs already saved.
 *
 * The driver is given as a reference definition over an explicit state (`Batch`), the
 * imperative loop (`Run`) is proved to compute it, and the promises of the driver are proved
 * about the reference definition.
 */
module Batch {
  import opened Wrappers
  import opened Text
  import opened Order
  import Paths
  import Refs
  import opened Fetch

  /** The options `run` reads; an empty `refsDir` stands for an absent `--refs-dir`. */
  datatype Args = Args(
    refsDir: string,
    refsFiles: seq<string>,
    out: string,
    skipExisting: bool,
    limit: int)

  /** One call of `download_flatpakref` made by the driver, and what it returned or raised. */
  datatype Attempt = Attempt(subject: string, appId: string, outDir: string, result: Result<string, string>)

  /** The loop's variables: the two counters, the `seen` pairs, the attempts so far and the world. */
  datatype State = State(
    ok: nat,
    fail: nat,
    seen: set<(string, string)>,
    report: seq<Attempt>,
    world: World)

  /** What `run` ends with: its exit status, the counters, every attempt, and the world. */
  datatype Summary = Summary(code: int, ok: nat, fail: nat, report: seq<Attempt>, world: World)

  /**
   * One item of `_iter_subjects`: the refs file's subject (its base name without the
   * extension), the file itself, and the subject's directory under the output root.
   */
  function IterSubject(refsPath: string, baseOut: string): (t: (string, string, string))
    ensures '/' !in t.0 && t.1 == refsPath && t.2 == Paths.Join(baseOut, t.0)
  {
    var subject := Paths.Subject(refsPath);
    (subject, refsPath, Paths.Join(baseOut, subject))
  }

  /** The file `<dir>/<name>.<ext>` gives the subject `<name>` and the directory `<out>/<name>`. */
  lemma IterSubjectOfNamedFile(dir: string, name: string, ext: string, baseOut: string)
    requires '/' !in name && exists j :: 0 <= j < |name| && name[j] != '.'
    requires '/' !in ext && '.' !in ext
    ensures IterSubject(Paths.Join(dir, name + "." + ext), baseOut) ==
      (name, Paths.Join(dir, name + "." + ext), Paths.Join(baseOut, name))
  {
    Paths.SubjectOfNamedFile(dir, name, ext);
  }

  /** A file name without an extension is its own subject: `<dir>/<file>` gives `<out>/<file>`. */
  lemma IterSubjectOfPlainFile(dir: string, file: string, baseOut: string)
    requires '/' !in file && file != []
    requires forall j :: 0 <= j < Paths.RFind(file, '.') ==> file[j] == '.'
    ensures IterSubject(Paths.Join(dir, file), baseOut) ==
      (file, Paths.Join(dir, file), Paths.Join(baseOut, file))
  {
    Paths.SubjectOfPlainFile(dir, file);
  }

  /** `args.limit and ok >= args.limit`. */
  predicate LimitReached(limit: int, ok: nat) {
    limit != 0 && ok >= limit
  }

  /** One identifier of the inner loop, once the limit has been checked: skip a saved pair, or download. */
  function Step(s: State, subject: string, outDir: string, appId: string, skipExisting: bool): State {
    if (subject, appId) in s.seen then s
    else
      var f := Download(s.world, appId, outDir, skipExisting);
      var report := s.report + [Attempt(subject, appId, outDir, f.result)];
      if f.result.Failure? then State(s.ok, s.fail + 1, s.seen, report, f.world)
      else State(s.ok + 1, s.fail, s.seen + {(subject, appId)}, report, f.world)
  }

  /** The inner loop over one subject's identifiers, stopping early once the limit is reached. */
  function Attempts(args: Args, subject: string, outDir: string, ids: seq<string>, s: State): State
    decreases |ids|
  {
    if ids == [] || LimitReached(args.limit, s.ok) then s
    else Attempts(args, subject, outDir, ids[1..], Step(s, subject, outDir, ids[0], args.skipExisting))
  }

  /**
   * The outer loop over the refs files: a missing file or one without identifiers is passed
   * over (without the limit check), otherwise its sorted identifiers are tried and the limit
   * is checked once more.
   */
  ghost function Subjects(args: Args, refsFiles: seq<string>, s: State): State
    decreases |refsFiles|
  {
    if refsFiles == [] then s
    else
      var path := refsFiles[0];
      if path !in s.world.files || Refs.RefIds(Lines(s.world.files[path])) == {} then
        Subjects(args, refsFiles[1..], s)
      else
        var s' := Visit(args, path, s);
        if LimitReached(args.limit, s'.ok) then s' else Subjects(args, refsFiles[1..], s')
  }

  lemma SubjectsSkip(args: Args, refsFiles: seq<string>, s: State)
    requires refsFiles != []
    requires refsFiles[0] !in s.world.files || Refs.RefIds(Lines(s.world.files[refsFiles[0]])) == {}
    ensures Subjects(args, refsFiles, s) == Subjects(args, refsFiles[1..], s)
  {
  }

  lemma SubjectsVisit(args: Args, refsFiles: seq<string>, s: State)
    requires refsFiles != []
    requires refsFiles[0] in s.world.files && Refs.RefIds(Lines(s.world.files[refsFiles[0]])) != {}
    ensures var s' := Visit(args, refsFiles[0], s);
      Subjects(args, refsFiles, s) == if LimitReached(args.limit, s'.ok) then s' else Subjects(args, refsFiles[1..], s')
  {
  }

  /** One refs file that exists: its subject's sorted identifiers, tried in turn. */
  ghost function Visit(args: Args, path: string, s: State): State
    requires path in s.world.files
  {
    var subject := Paths.Subject(path);
    var ids := SortedSeq(Refs.RefIds(Lines(s.world.files[path])));
    Attempts(args, subject, Paths.Join(args.out, subject), ids, s)
  }

  /** The refs files `run` works through, or `None` when `--refs-dir` is not a directory. */
  function RefsList(args: Args, w: World): Option<seq<string>> {
    if args.refsDir != [] && args.refsDir !in w.dirs then None
    else
      var found := if args.refsDir != [] then SortedList(Refs.RefsPaths(args.refsDir, w.dirs[args.refsDir])) else [];
      Some(found + args.refsFiles)
  }

  function Initial(w: World): State {
    State(0, 0, {}, [], w)
  }

  /** `run(args)` as a whole: status 2 before any work when there is nothing to read, else 0 iff something was saved. */
  ghost function Batch(args: Args, w: World): Summary {
    var refs := RefsList(args, w);
    if refs.None? || refs.value == [] then Summary(2, 0, 0, [], w)
    else
      var s := Subjects(args, refs.value, Initial(w));
      Summary(if s.ok > 0 then 0 else 1, s.ok, s.fail, s.report, s.world)
  }

  // ---------------------------------------------------------------------------------------
  // What the driver promises, stated over the attempts it makes.

  /** The number of attempts that returned a path. */
  function Successes(report: seq<Attempt>): (n: nat)
    ensures n <= |report|
  {
    if report == [] then 0
    else Successes(report[..|report| - 1]) + (if report[|report| - 1].result.Success? then 1 else 0)
  }

  /** The (subject, identifier) pairs of the attempts that returned a path. */
  function SavedKeys(report: seq<Attempt>): set<(string, string)> {
    if report == [] then {}
    else
      var a := report[|report| - 1];
      SavedKeys(report[..|report| - 1]) + (if a.result.Success? then {(a.subject, a.appId)} else {})
  }

  /** The world after the given attempts, each a `download_flatpakref` call on the world the previous one left. */
  function Replay(w: World, skipExisting: bool, report: seq<Attempt>): World {
    if report == [] then w
    else
      var a := report[|report| - 1];
      Download(Replay(w, skipExisting, report[..|report| - 1]), a.appId, a.outDir, skipExisting).world
  }

  /** Every attempt got exactly what `download_flatpakref` gives on the world at that moment. */
  predicate Faithful(w: World, skipExisting: bool, report: seq<Attempt>) {
    forall i :: 0 <= i < |report| ==> Expected(w, skipExisting, report[..i], report[i])
  }

  /** The attempt `a`, made after `before`, got what `download_flatpakref` gives on the world then. */
  predicate Expected(w: World, skipExisting: bool, before: seq<Attempt>, a: Attempt) {
    a.result == Download(Replay(w, skipExisting, before), a.appId, a.outDir, skipExisting).result
  }

  /** No attempt was started with the success count at the limit. */
  predicate UnderLimit(limit: int, report: seq<Attempt>) {
    forall i :: 0 <= i < |report| ==> !LimitReached(limit, Successes(report[..i]))
  }

  /** A saved pair is never tried again. */
  predicate NoRetryAfterSave(report: seq<Attempt>) {
    forall i, j :: 0 <= i < j < |report| && report[i].result.Success? ==>
      (report[i].subject, report[i].appId) != (report[j].subject, report[j].appId)
  }

  /** Every attempt fetches a dotted identifier into its subject's directory. */
  predicate WellFormed(out: string, report: seq<Attempt>) {
    forall i :: 0 <= i < |report| ==>
      '.' in report[i].appId && report[i].outDir == Paths.Join(out, report[i].subject)
  }

  /** What holds of the loop variables between any two steps of the driver. */
  ghost predicate Inv(args: Args, w0: World, s: State) {
    && s.ok == Successes(s.report)
    && s.fail == |s.report| - s.ok
    && s.seen == SavedKeys(s.report)
    && s.world == Replay(w0, args.skipExisting, s.report)
    && Faithful(w0, args.skipExisting, s.report)
    && UnderLimit(args.limit, s.report)
    && NoRetryAfterSave(s.report)
    && WellFormed(args.out, s.report)
  }

  lemma PrefixOfSnoc(report: seq<Attempt>, a: Attempt)
    ensures (report + [a])[..|report|] == report
    ensures forall i :: 0 <= i <= |report| ==> (report + [a])[..i] == report[..i]
  {
  }

  /** A download step keeps the invariant, as long as the limit had not been reached. */
  lemma StepInv(args: Args, w0: World, s: State, subject: string, outDir: string, appId: string)
    requires Inv(args, w0, s)
    requires !LimitReached(args.limit, s.ok)
    requires '.' in appId && outDir == Paths.Join(args.out, subject)
    ensures Inv(args, w0, Step(s, subject, outDir, appId, args.skipExisting))
  {
    if (subject, appId) !in s.seen {
      var f := Download(s.world, appId, outDir, args.skipExisting);
      var a := Attempt(subject, appId, outDir, f.result);
      var r := s.report + [a];
      var s' := Step(s, subject, outDir, appId, args.skipExisting);
      assert s'.report == r && s'.world == f.world;
      assert r[..|r| - 1] == s.report;
      assert s'.ok == Successes(r);
      assert s'.fail == |r| - s'.ok;
      assert s'.seen == SavedKeys(r);
      assert s'.world == Replay(w0, args.skipExisting, r);
      FaithfulSnoc(w0, args.skipExisting, s.report, a);
      UnderLimitSnoc(args.limit, s.report, a);
      NoRetrySnoc(s.report, a);
      WellFormedSnoc(args.out, s.report, a);
    }
  }

  lemma FaithfulSnoc(w: World, skipExisting: bool, report: seq<Attempt>, a: Attempt)
    requires Faithful(w, skipExisting, report)
    requires Expected(w, skipExisting, report, a)
    ensures Faithful(w, skipExisting, report + [a])
  {
    var r := report + [a];
    forall i | 0 <= i < |r| ensures Expected(w, skipExisting, r[..i], r[i]) {
      if i < |report| {
        assert r[..i] == report[..i] && r[i] == report[i];
      } else {
        assert r[..i] == report && r[i] == a;
      }
    }
  }

  lemma UnderLimitSnoc(limit: int, report: seq<Attempt>, a: Attempt)
    requires UnderLimit(limit, report)
    requires !LimitReached(limit, Successes(report))
    ensures UnderLimit(limit, report + [a])
  {
    var r := report + [a];
    forall i | 0 <= i < |r| ensures !LimitReached(limit, Successes(r[..i])) {
      assert r[..i] == report[..i];
    }
  }

  lemma NoRetrySnoc(report: seq<Attempt>, a: Attempt)
    requires NoRetryAfterSave(report)
    requires (a.subject, a.appId) !in SavedKeys(report)
    ensures NoRetryAfterSave(report + [a])
  {
    var r := report + [a];
    forall i, j | 0 <= i < j < |r| && r[i].result.Success?
      ensures (r[i].subject, r[i].appId) != (r[j].subject, r[j].appId)
    {
      if j == |report| {
        SavedKeysHas(report, i);
      }
    }
  }

  lemma WellFormedSnoc(out: string, report: seq<Attempt>, a: Attempt)
    requires WellFormed(out, report)
    requires '.' in a.appId && a.outDir == Paths.Join(out, a.subject)
    ensures WellFormed(out, report + [a])
  {
  }

  lemma {:induction false} SavedKeysHas(report: seq<Attempt>, i: nat)
    requires i < |report| && report[i].result.Success?
    ensures (report[i].subject, report[i].appId) in SavedKeys(report)
  {
    var prefix := report[..|report| - 1];
    if i < |prefix| {
      assert prefix[i] == report[i];
      SavedKeysHas(prefix, i);
    }
  }

  lemma {:induction false} AttemptsInv(args: Args, w0: World, subject: string, outDir: string, ids: seq<string>, s: State)
    requires Inv(args, w0, s)
    requires forall k :: 0 <= k < |ids| ==> '.' in ids[k]
    requires outDir == Paths.Join(args.out, subject)
    ensures Inv(args, w0, Attempts(args, subject, outDir, ids, s))
    decreases |ids|
  {
    if ids != [] && !LimitReached(args.limit, s.ok) {
      StepInv(args, w0, s, subject, outDir, ids[0]);
      AttemptsInv(args, w0, subject, outDir, ids[1..], Step(s, subject, outDir, ids[0], args.skipExisting));
    }
  }

  lemma {:induction false} SubjectsInv(args: Args, w0: World, refsFiles: seq<string>, s: State)
    requires Inv(args, w0, s)
    ensures Inv(args, w0, Subjects(args, refsFiles, s))
    decreases |refsFiles|
  {
    if refsFiles != [] {
      var path := refsFiles[0];
      if path !in s.world.files || Refs.RefIds(Lines(s.world.files[path])) == {} {
        SubjectsInv(args, w0, refsFiles[1..], s);
      } else {
        var s' := Visit(args, path, s);
        VisitInv(args, w0, path, s);
        if !LimitReached(args.limit, s'.ok) {
          SubjectsInv(args, w0, refsFiles[1..], s');
        }
      }
    }
  }

  lemma VisitInv(args: Args, w0: World, path: string, s: State)
    requires Inv(args, w0, s)
    requires path in s.world.files
    ensures Inv(args, w0, Visit(args, path, s))
  {
    var subject := Paths.Subject(path);
    var found := Refs.RefIds(Lines(s.world.files[path]));
    var ids := SortedSeq(found);
    assert forall k :: 0 <= k < |ids| ==> '.' in ids[k] by {
      forall k | 0 <= k < |ids| ensures '.' in ids[k] {
        assert ids[k] in found;
      }
    }
    AttemptsInv(args, w0, subject, Paths.Join(args.out, subject), ids, s);
  }

  /** The (subject, identifier) pair of each attempt, in order. */
  function Keys(report: seq<Attempt>): (ks: seq<(string, string)>)
    ensures |ks| == |report|
  {
    if report == [] then [] else [(report[0].subject, report[0].appId)] + Keys(report[1..])
  }

  /** The pairs one subject's identifiers make, in order. */
  function Pairs(subject: string, ids: seq<string>): (ps: seq<(string, string)>)
    ensures |ps| == |ids|
  {
    if ids == [] then [] else [(subject, ids[0])] + Pairs(subject, ids[1..])
  }

  /** The identifiers of `ids`, in order, whose pair with `subject` has not been saved. */
  function Unsaved(subject: string, ids: seq<string>, seen: set<(string, string)>): (r: seq<string>)
    ensures forall x :: x in r <==> x in ids && (subject, x) !in seen
    ensures |r| <= |ids|
    ensures StrictlySorted(ids) ==> StrictlySorted(r)
  {
    if ids == [] then []
    else
      var rest := Unsaved(subject, ids[1..], seen);
      assert StrictlySorted(ids) ==> forall k :: 0 <= k < |rest| ==> Less(ids[0], rest[k]) by {
        if StrictlySorted(ids) {
          forall k | 0 <= k < |rest| ensures Less(ids[0], rest[k]) {
            assert rest[k] in rest;
            assert rest[k] in ids[1..];
            var j :| 0 <= j < |ids[1..]| && ids[1..][j] == rest[k];
            assert ids[j + 1] == rest[k];
          }
        }
      }
      (if (subject, ids[0]) in seen then [] else [ids[0]]) + rest
  }

  /** Saving a pair whose identifier is not among `ids` does not change which of them are unsaved. */
  lemma {:induction false} UnsavedIgnores(subject: string, ids: seq<string>, seen: set<(string, string)>, x: string)
    requires x !in ids
    ensures Unsaved(subject, ids, seen + {(subject, x)}) == Unsaved(subject, ids, seen)
    decreases |ids|
  {
    if ids != [] {
      UnsavedIgnores(subject, ids[1..], seen, x);
    }
  }

  /**
   * Without a limit, each of a subject's identifiers that was not saved for that subject
   * before is attempted exactly once, in the order given (sorted, for the driver), and
   * nothing else is attempted.
   */
  lemma {:induction false} AttemptsAll(args: Args, subject: string, outDir: string, ids: seq<string>, s: State)
    requires args.limit == 0
    requires StrictlySorted(ids)
    ensures var r := Attempts(args, subject, outDir, ids, s).report;
      && |s.report| <= |r|
      && r[..|s.report|] == s.report
      && Keys(r[|s.report|..]) == Pairs(subject, Unsaved(subject, ids, s.seen))
    decreases |ids|
  {
    if ids == [] {
      assert Attempts(args, subject, outDir, ids, s).report[|s.report|..] == [];
    } else {
      var s1 := Step(s, subject, outDir, ids[0], args.skipExisting);
      var r := Attempts(args, subject, outDir, ids, s).report;
      assert r == Attempts(args, subject, outDir, ids[1..], s1).report;
      AttemptsAll(args, subject, outDir, ids[1..], s1);
      if (subject, ids[0]) in s.seen {
        assert Unsaved(subject, ids, s.seen) == Unsaved(subject, ids[1..], s.seen);
      } else {
        assert ids[0] !in ids[1..] by {
          forall k | 1 <= k < |ids| ensures ids[k] != ids[0] {
            assert Less(ids[0], ids[k]);
            LessIrreflexive(ids[0]);
          }
        }
        assert s1.seen == s.seen || s1.seen == s.seen + {(subject, ids[0])};
        UnsavedIgnores(subject, ids[1..], s.seen, ids[0]);
        var u := Unsaved(subject, ids[1..], s.seen);
        assert Unsaved(subject, ids, s.seen) == [ids[0]] + u;
        assert ([ids[0]] + u)[1..] == u;
        StepAppends(s, subject, outDir, ids[0], args.skipExisting);
        SnocKeys(s.report, s1.report, r, subject, ids[0]);
      }
    }
  }

  lemma StepAppends(s: State, subject: string, outDir: string, appId: string, skipExisting: bool)
    requires (subject, appId) !in s.seen
    ensures var r := Step(s, subject, outDir, appId, skipExisting).report;
      && |r| == |s.report| + 1 && r[..|s.report|] == s.report
      && r[|s.report|].subject == subject && r[|s.report|].appId == appId
  {
  }

  lemma SnocKeys(r0: seq<Attempt>, r1: seq<Attempt>, r: seq<Attempt>, subject: string, appId: string)
    requires |r1| == |r0| + 1 && r1[..|r0|] == r0
    requires r1[|r0|].subject == subject && r1[|r0|].appId == appId
    requires |r1| <= |r| && r[..|r1|] == r1
    ensures r[..|r0|] == r0
    ensures Keys(r[|r0|..]) == [(subject, appId)] + Keys(r[|r1|..])
  {
    assert r[|r0|..][1..] == r[|r1|..];
  }

  /** With a positive limit, the success count never goes past it. */
  lemma {:induction false} LimitBound(limit: int, report: seq<Attempt>)
    requires limit > 0 && UnderLimit(limit, report)
    ensures Successes(report) <= limit
  {
    if report != [] {
      var n := |report| - 1;
      assert !LimitReached(limit, Successes(report[..n]));
    }
  }

  /**
   * The attempts `rest`, made after the attempts `done`, are those of a run without a limit
   * over `refsFiles`: each refs file present when its turn comes contributes its subject's
   * identifiers in sorted order, less the pairs saved by then; a missing file contributes
   * nothing.
   */
  ghost predicate Follows(w0: World, skipExisting: bool, refsFiles: seq<string>, done: seq<Attempt>, rest: seq<Attempt>)
    decreases |refsFiles|
  {
    if refsFiles == [] then rest == []
    else
      var files := Replay(w0, skipExisting, done).files;
      if refsFiles[0] !in files then Follows(w0, skipExisting, refsFiles[1..], done, rest)
      else
        var want := Due(files, refsFiles[0], done);
        && |want| <= |rest|
        && Keys(rest[..|want|]) == want
        && Follows(w0, skipExisting, refsFiles[1..], done + rest[..|want|], rest[|want|..])
  }

  /** The (subject, identifier) pairs a refs file asks for once the attempts `done` are made. */
  ghost function Due(files: map<string, string>, path: string, done: seq<Attempt>): seq<(string, string)>
    requires path in files
  {
    var subject := Paths.Subject(path);
    Pairs(subject, Unsaved(subject, SortedSeq(Refs.RefIds(Lines(files[path]))), SavedKeys(done)))
  }

  lemma FollowsMissing(w0: World, skipExisting: bool, refsFiles: seq<string>, done: seq<Attempt>, rest: seq<Attempt>)
    requires refsFiles != [] && refsFiles[0] !in Replay(w0, skipExisting, done).files
    requires Follows(w0, skipExisting, refsFiles[1..], done, rest)
    ensures Follows(w0, skipExisting, refsFiles, done, rest)
  {
  }

  lemma FollowsVisit(w0: World, skipExisting: bool, refsFiles: seq<string>, done: seq<Attempt>,
                     seg: seq<Attempt>, rest: seq<Attempt>)
    requires refsFiles != [] && refsFiles[0] in Replay(w0, skipExisting, done).files
    requires Keys(seg) == Due(Replay(w0, skipExisting, done).files, refsFiles[0], done)
    requires Follows(w0, skipExisting, refsFiles[1..], done + seg, rest)
    ensures Follows(w0, skipExisting, refsFiles, done, seg + rest)
  {
    assert (seg + rest)[..|seg|] == seg;
    assert (seg + rest)[|seg|..] == rest;
  }

  lemma {:induction false} SubjectsFollow(args: Args, w0: World, refsFiles: seq<string>, s: State)
    requires args.limit == 0 && Inv(args, w0, s)
    ensures var r := Subjects(args, refsFiles, s).report;
      && |s.report| <= |r| && r[..|s.report|] == s.report
      && Follows(w0, args.skipExisting, refsFiles, s.report, r[|s.report|..])
    decreases |refsFiles|
  {
    if refsFiles == [] {
      assert s.report[|s.report|..] == [];
    } else if refsFiles[0] !in s.world.files {
      SubjectsSkip(args, refsFiles, s);
      SubjectsFollow(args, w0, refsFiles[1..], s);
      var r := Subjects(args, refsFiles, s).report;
      FollowsMissing(w0, args.skipExisting, refsFiles, s.report, r[|s.report|..]);
    } else {
      VisitFollow(args, w0, refsFiles, s);
    }
  }

  lemma {:induction false} VisitFollow(args: Args, w0: World, refsFiles: seq<string>, s: State)
    requires args.limit == 0 && Inv(args, w0, s)
    requires refsFiles != [] && refsFiles[0] in s.world.files
    ensures var r := Subjects(args, refsFiles, s).report;
      && |s.report| <= |r| && r[..|s.report|] == s.report
      && Follows(w0, args.skipExisting, refsFiles, s.report, r[|s.report|..])
    decreases |refsFiles|, 1
  {
    if Refs.RefIds(Lines(s.world.files[refsFiles[0]])) == {} {
      EmptyFollow(args, w0, refsFiles, s);
    } else {
      FullFollow(args, w0, refsFiles, s);
    }
  }

  lemma {:induction false} EmptyFollow(args: Args, w0: World, refsFiles: seq<string>, s: State)
    requires args.limit == 0 && Inv(args, w0, s)
    requires refsFiles != [] && refsFiles[0] in s.world.files
    requires Refs.RefIds(Lines(s.world.files[refsFiles[0]])) == {}
    ensures var r := Subjects(args, refsFiles, s).report;
      && |s.report| <= |r| && r[..|s.report|] == s.report
      && Follows(w0, args.skipExisting, refsFiles, s.report, r[|s.report|..])
    decreases |refsFiles|, 0
  {
    var path := refsFiles[0];
    var subject := Paths.Subject(path);
    var found := Refs.RefIds(Lines(s.world.files[path]));
    var r := Subjects(args, refsFiles, s).report;
    var n := |s.report|;
    SubjectsSkip(args, refsFiles, s);
    SubjectsFollow(args, w0, refsFiles[1..], s);
    SortedSeqLength(found);
    assert Unsaved(subject, SortedSeq(found), s.seen) == [];
    assert Keys([]) == Due(s.world.files, path, s.report);
    assert s.report + [] == s.report;
    FollowsVisit(w0, args.skipExisting, refsFiles, s.report, [], r[n..]);
    assert [] + r[n..] == r[n..];
  }

  lemma {:induction false} FullFollow(args: Args, w0: World, refsFiles: seq<string>, s: State)
    requires args.limit == 0 && Inv(args, w0, s)
    requires refsFiles != [] && refsFiles[0] in s.world.files
    requires Refs.RefIds(Lines(s.world.files[refsFiles[0]])) != {}
    ensures var r := Subjects(args, refsFiles, s).report;
      && |s.report| <= |r| && r[..|s.report|] == s.report
      && Follows(w0, args.skipExisting, refsFiles, s.report, r[|s.report|..])
    decreases |refsFiles|, 0
  {
    var path := refsFiles[0];
    var subject := Paths.Subject(path);
    var ids := SortedSeq(Refs.RefIds(Lines(s.world.files[path])));
    var r := Subjects(args, refsFiles, s).report;
    var n := |s.report|;
    var s' := Visit(args, path, s);
    SubjectsVisit(args, refsFiles, s);
    AttemptsAll(args, subject, Paths.Join(args.out, subject), ids, s);
    VisitInv(args, w0, path, s);
    SubjectsFollow(args, w0, refsFiles[1..], s');
    var m := |s'.report|;
    var seg := s'.report[n..];
    PrefixSplit(s.report, s'.report, r);
    FollowsVisit(w0, args.skipExisting, refsFiles, s.report, seg, r[m..]);
  }

  /** A report `r` that extends `b`, which extends `a`, splits into `a`, then the rest of `b`, then the rest of `r`. */
  lemma PrefixSplit(a: seq<Attempt>, b: seq<Attempt>, r: seq<Attempt>)
    requires |a| <= |b| <= |r| && r[..|b|] == b && b[..|a|] == a
    ensures a + b[|a|..] == b
    ensures b[|a|..] + r[|b|..] == r[|a|..]
    ensures r[..|a|] == a
  {
    assert r[..|b|][..|a|] == r[..|a|];
  }

  /**
   * Without a limit, the run attempts exactly what its refs files ask for: file by file in
   * the order gathered, each file present at its turn giving its identifiers in sorted order,
   * less the pairs already saved.
   */
  lemma BatchSchedule(args: Args, w: World)
    requires args.limit == 0
    ensures var r := Batch(args, w);
      r.code != 2 ==> Follows(w, args.skipExisting, RefsList(args, w).value, [], r.report)
  {
    var refs := RefsList(args, w);
    if !(refs.None? || refs.value == []) {
      SubjectsFollow(args, w, refs.value, Initial(w));
      var r := Subjects(args, refs.value, Initial(w)).report;
      assert r[0..] == r;
    }
  }

  /** Attempts only ever add to the report and to the success count. */
  lemma {:induction false} AttemptsGrow(args: Args, subject: string, outDir: string, ids: seq<string>, s: State)
    ensures var t := Attempts(args, subject, outDir, ids, s);
      s.ok <= t.ok && |s.report| <= |t.report| && t.report[..|s.report|] == s.report
    decreases |ids|
  {
    if ids != [] && !LimitReached(args.limit, s.ok) {
      var s1 := Step(s, subject, outDir, ids[0], args.skipExisting);
      AttemptsGrow(args, subject, outDir, ids[1..], s1);
      assert |s.report| <= |s1.report| && s1.report[..|s.report|] == s.report;
    }
  }

  lemma {:induction false} SubjectsGrow(args: Args, refsFiles: seq<string>, s: State)
    ensures var t := Subjects(args, refsFiles, s);
      s.ok <= t.ok && |s.report| <= |t.report| && t.report[..|s.report|] == s.report
    decreases |refsFiles|
  {
    if refsFiles != [] {
      var path := refsFiles[0];
      if path !in s.world.files || Refs.RefIds(Lines(s.world.files[path])) == {} {
        SubjectsSkip(args, refsFiles, s);
        SubjectsGrow(args, refsFiles[1..], s);
      } else {
        var s' := Visit(args, path, s);
        SubjectsVisit(args, refsFiles, s);
        VisitGrow(args, path, s);
        if !LimitReached(args.limit, s'.ok) {
          SubjectsGrow(args, refsFiles[1..], s');
          PrefixSplit(s.report, s'.report, Subjects(args, refsFiles[1..], s').report);
        }
      }
    }
  }

  lemma VisitGrow(args: Args, path: string, s: State)
    requires path in s.world.files
    ensures var t := Visit(args, path, s);
      s.ok <= t.ok && |s.report| <= |t.report| && t.report[..|s.report|] == s.report
  {
    var subject := Paths.Subject(path);
    AttemptsGrow(args, subject, Paths.Join(args.out, subject), SortedSeq(Refs.RefIds(Lines(s.world.files[path]))), s);
  }

  /** The same options without a limit. */
  function Unlimited(args: Args): (u: Args)
    ensures u.limit == 0 && u.refsDir == args.refsDir && u.refsFiles == args.refsFiles
    ensures u.out == args.out && u.skipExisting == args.skipExisting
  {
    args.(limit := 0)
  }

  lemma {:induction false} AttemptsLimited(args: Args, subject: string, outDir: string, ids: seq<string>, s: State)
    ensures var t, u := Attempts(args, subject, outDir, ids, s), Attempts(Unlimited(args), subject, outDir, ids, s);
      && |t.report| <= |u.report| && u.report[..|t.report|] == t.report
      && (!LimitReached(args.limit, t.ok) ==> t == u)
    decreases |ids|
  {
    if ids != [] {
      if LimitReached(args.limit, s.ok) {
        AttemptsGrow(Unlimited(args), subject, outDir, ids, s);
      } else {
        var s1 := Step(s, subject, outDir, ids[0], args.skipExisting);
        AttemptsLimited(args, subject, outDir, ids[1..], s1);
      }
    }
  }

  lemma {:induction false} SubjectsLimited(args: Args, refsFiles: seq<string>, s: State)
    ensures var t, u := Subjects(args, refsFiles, s), Subjects(Unlimited(args), refsFiles, s);
      && |t.report| <= |u.report| && u.report[..|t.report|] == t.report
      && (!LimitReached(args.limit, t.ok) ==> t == u)
    decreases |refsFiles|
  {
    if refsFiles != [] {
      var path := refsFiles[0];
      if path !in s.world.files || Refs.RefIds(Lines(s.world.files[path])) == {} {
        SubjectsSkip(args, refsFiles, s);
        SubjectsSkip(Unlimited(args), refsFiles, s);
        SubjectsLimited(args, refsFiles[1..], s);
      } else {
        var t1 := Visit(args, path, s);
        SubjectsVisit(args, refsFiles, s);
        SubjectsVisit(Unlimited(args), refsFiles, s);
        VisitLimited(args, path, s);
        if LimitReached(args.limit, t1.ok) {
          var u1 := Visit(Unlimited(args), path, s);
          SubjectsGrow(Unlimited(args), refsFiles[1..], u1);
          PrefixSplit(t1.report, u1.report, Subjects(Unlimited(args), refsFiles[1..], u1).report);
        } else {
          SubjectsLimited(args, refsFiles[1..], t1);
        }
      }
    }
  }

  /** One subject under a limit: a prefix of the unlimited visit, and all of it unless stopped. */
  lemma VisitLimited(args: Args, path: string, s: State)
    requires path in s.world.files
    ensures var t, u := Visit(args, path, s), Visit(Unlimited(args), path, s);
      && |t.report| <= |u.report| && u.report[..|t.report|] == t.report
      && (!LimitReached(args.limit, t.ok) ==> t == u)
  {
    var subject := Paths.Subject(path);
    var ids := SortedSeq(Refs.RefIds(Lines(s.world.files[path])));
    AttemptsLimited(args, subject, Paths.Join(args.out, subject), ids, s);
  }

  /**
   * A limit only cuts the run short: a limited run makes exactly the first attempts of the
   * same run without a limit, and all of them unless it stopped with the limit reached.
   */
  lemma BatchLimited(args: Args, w: World)
    requires args.limit > 0
    ensures var r, u := Batch(args, w), Batch(Unlimited(args), w);
      && |r.report| <= |u.report| && u.report[..|r.report|] == r.report
      && (r.ok < args.limit ==> r == u)
      && (r.report != u.report ==> r.ok == args.limit)
  {
    var refs := RefsList(args, w);
    assert RefsList(Unlimited(args), w) == refs;
    if !(refs.None? || refs.value == []) {
      SubjectsLimited(args, refs.value, Initial(w));
      BatchProperties(args, w);
    }
  }

  /**
   * The promises of `run`: status 2 exactly when there is nothing to read (and then nothing
   * happens); otherwise the counters count the attempts, status 0 iff something was saved,
   * no attempt starts at the limit, a positive limit bounds the successes, a saved pair is
   * never tried again, and the final world is what the attempts, in order, made of it.
   */
  lemma BatchProperties(args: Args, w: World)
    ensures var r := Batch(args, w);
      && (r.code == 2 <==> RefsList(args, w).None? || RefsList(args, w).value == [])
      && (r.code == 2 ==> r.report == [] && r.world == w)
      && (r.code != 2 ==> (r.code == 0 <==> r.ok > 0) && (r.code == 1 <==> r.ok == 0))
      && r.ok == Successes(r.report)
      && r.ok + r.fail == |r.report|
      && UnderLimit(args.limit, r.report)
      && (args.limit > 0 ==> r.ok <= args.limit)
      && NoRetryAfterSave(r.report)
      && WellFormed(args.out, r.report)
      && Faithful(w, args.skipExisting, r.report)
      && r.world == Replay(w, args.skipExisting, r.report)
  {
    var refs := RefsList(args, w);
    var r := Batch(args, w);
    if !(refs.None? || refs.value == []) {
      SubjectsInv(args, w, refs.value, Initial(w));
      if args.limit > 0 {
        LimitBound(args.limit, r.report);
      }
    }
  }

  // ---------------------------------------------------------------------------------------
  // The loop itself.

  /**
   * The inner loop of `run`: the identifiers of one subject in order, stopping once the
   * limit is reached, passing over pairs already saved, and counting each download's outcome.
   */
  method TrySubject(args: Args, subject: string, subjectOut: string, appIds: seq<string>,
                    ok0: nat, fail0: nat, seen0: set<(string, string)>, report0: seq<Attempt>, w0: World)
    returns (ok: nat, fail: nat, seen: set<(string, string)>, report: seq<Attempt>, w: World)
    ensures State(ok, fail, seen, report, w) ==
      Attempts(args, subject, subjectOut, appIds, State(ok0, fail0, seen0, report0, w0))
  {
    ok, fail, seen, report, w := ok0, fail0, seen0, report0, w0;
    ghost var goal := Attempts(args, subject, subjectOut, appIds, State(ok0, fail0, seen0, report0, w0));
    for j := 0 to |appIds|
      invariant Attempts(args, subject, subjectOut, appIds[j..], State(ok, fail, seen, report, w)) == goal
    {
      assert appIds[j..][1..] == appIds[j + 1..];
      if args.limit != 0 && ok >= args.limit {
        break;
      }
      var key := (subject, appIds[j]);
      if key in seen {
        continue;
      }
      var result, w' := DownloadFlatpakref(w, appIds[j], subjectOut, args.skipExisting);
      report := report + [Attempt(subject, appIds[j], subjectOut, result)];
      w := w';
      if result.Failure? {
        fail := fail + 1;
      } else {
        ok := ok + 1;
        seen := seen + {key};
      }
    }
  }

  /**
   * The start of `run`: the sorted ".refs" entries of `--refs-dir` (when given), then the
   * `--refs-file` paths; `None` when `--refs-dir` is not a directory.
   */
  method GatherRefs(args: Args, w0: World) returns (r: Option<seq<string>>)
    ensures r == RefsList(args, w0)
    ensures r.Some? ==> |r.value| >= |args.refsFiles| && r.value[|r.value| - |args.refsFiles|..] == args.refsFiles
  {
    var refsFiles: seq<string> := [];
    if args.refsDir != [] {
      var found := Refs.FindRefsInDir(w0.dirs, args.refsDir);
      if found.None? {
        return None;
      }
      assert [] + found.value == found.value;
      refsFiles := refsFiles + found.value;
    }
    refsFiles := refsFiles + args.refsFiles;
    return Some(refsFiles);
  }

  /**
   * `run(args)` for the download command, with the world passed in and returned.
   * Returns the exit status, the two counters, the attempts made, and the new world.
   */
  method Run(args: Args, w0: World) returns (code: int, ok: nat, fail: nat, report: seq<Attempt>, w: World)
    ensures Summary(code, ok, fail, report, w) == Batch(args, w0)
    ensures ok + fail == |report| && (args.limit > 0 ==> ok <= args.limit)
    ensures code == 0 || code == 1 || (code == 2 && report == [] && w == w0)
    ensures NoRetryAfterSave(report) && UnderLimit(args.limit, report)
  {
    BatchProperties(args, w0);
    var gathered := GatherRefs(args, w0);
    if gathered.None? || gathered.value == [] {
      return 2, 0, 0, [], w0;
    }
    var refsFiles := gathered.value;

    ok, fail, report, w := 0, 0, [], w0;
    var seen: set<(string, string)> := {};
    ghost var goal := Subjects(args, refsFiles, Initial(w0));
    for k := 0 to |refsFiles|
      invariant Subjects(args, refsFiles[k..], State(ok, fail, seen, report, w)) == goal
    {
      var (subject, refsPath, subjectOut) := IterSubject(refsFiles[k], args.out);
      ghost var before := State(ok, fail, seen, report, w);
      ghost var rest := refsFiles[k..];
      assert rest[0] == refsPath && rest[1..] == refsFiles[k + 1..];
      var parsed := Refs.ParseRefsFile(w.files, refsPath);
      if parsed.None? {
        SubjectsSkip(args, rest, before);
        continue;
      }
      var appIds := SortSet(parsed.value);
      if appIds == [] {
        assert parsed.value == {};
        SubjectsSkip(args, rest, before);
        continue;
      }
      assert appIds[0] in appIds;
      assert parsed.value != {};
      SubjectsVisit(args, rest, before);
      ok, fail, seen, report, w := TrySubject(args, subject, subjectOut, appIds, ok, fail, seen, report, w);
      assert State(ok, fail, seen, report, w) == Visit(args, refsPath, before);
      if args.limit != 0 && ok >= args.limit {
        break;
      }
    }
    assert State(ok, fail, seen, report, w) == goal;
    code := if ok > 0 then 0 else 1;
  }
}
