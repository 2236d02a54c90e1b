/**
 * `download_flatpakref` (src/fhtoolkit/download.py): fetch `<app_id>.flatpakref` into a
 * directory, skipping the fetch when a non-empty copy is already there, trying the primary
 * location first and the fallback second.
 *
 * The outside world is a value: the files on disk (path to contents), the directory
 * listings, the answers the network will give to the next requests, in order, and the log
 * of URLs requested so far.
 */
module Fetch {
  import opened Wrappers
  import Paths

  /** What one `urlretrieve` call gets back: a payload, or the error it raises. */
  datatype Response = Delivered(payload: string) | Refused(cause: string)

  datatype World = World(
    files: map<string, string>,
    dirs: map<string, seq<string>>,
    network: seq<Response>,
    requests: seq<string>)

  /** The answer given once the supplied answers run out. */
  const Unanswered := Refused("no response")

  function PrimaryUrl(appId: string): string {
    "https://dl.flathub.org/repo/appstream/" + appId + ".flatpakref"
  }

  function FallbackUrl(appId: string): string {
    "https://flathub.org/repo/appstream/" + appId + ".flatpakref"
  }

  /** The two locations always differ, so the fallback is a real second chance. */
  lemma UrlsDiffer(appId: string)
    ensures PrimaryUrl(appId) != FallbackUrl(appId)
  {
    assert PrimaryUrl(appId)[8] == 'd' && FallbackUrl(appId)[8] == 'f';
  }

  /** `<out_dir>/<app_id>.flatpakref`. */
  function OutPath(outDir: string, appId: string): string {
    Paths.Join(outDir, appId + ".flatpakref")
  }

  /** `os.path.exists(p) and os.path.getsize(p) > 0`. */
  predicate Present(w: World, path: string) {
    path in w.files && w.files[path] != []
  }

  /**
   * `urlretrieve(url, dest)`: one request; the next answer is consumed and the URL logged;
   * a delivered payload is written to `dest`, a refusal leaves the files untouched.
   */
  function Retrieve(w: World, url: string, dest: string): (Response, World) {
    var answer := if w.network == [] then Unanswered else w.network[0];
    var rest := if w.network == [] then [] else w.network[1..];
    var files := if answer.Delivered? then w.files[dest := answer.payload] else w.files;
    (answer, World(files, w.dirs, rest, w.requests + [url]))
  }

  /**
   * One retrieval logs its URL and touches nothing but the network, the log and, on a
   * delivery, the destination file.
   */
  lemma RetrieveEffect(w: World, url: string, dest: string)
    ensures var r := Retrieve(w, url, dest); r.1.requests == w.requests + [url] && r.1.dirs == w.dirs
    ensures var r := Retrieve(w, url, dest);
      w.network != [] ==> r.0 == w.network[0] && r.1.network == w.network[1..]
    ensures var r := Retrieve(w, url, dest); w.network == [] ==> r.0 == Unanswered && r.1.network == []
    ensures var r := Retrieve(w, url, dest); r.0.Delivered? ==> r.1.files == w.files[dest := r.0.payload]
    ensures var r := Retrieve(w, url, dest); r.0.Refused? ==> r.1.files == w.files
  {
  }

  /** The file is named after the identifier, whatever the directory. */
  lemma OutPathName(outDir: string, appId: string)
    requires '/' !in appId
    ensures Paths.Basename(OutPath(outDir, appId)) == appId + ".flatpakref"
  {
    var file := appId + ".flatpakref";
    assert '/' !in file by {
      assert forall k :: 0 <= k < |file| ==> file[k] == (if k < |appId| then appId[k] else ".flatpakref"[k - |appId|]);
    }
    Paths.BasenameOfJoin(outDir, file);
  }

  /** The outcome of one `download_flatpakref` call: the returned path or the raised error, and the new world. */
  datatype Fetched = Fetched(result: Result<string, string>, world: World)

  /**
   * What `download_flatpakref(app_id, out_dir, skip_existing)` does, case by case:
   * return at once when skipping applies; otherwise the primary URL, then the fallback,
   * stopping at the first delivery; when both fail, the second failure is raised.
   */
  function Download(w: World, appId: string, outDir: string, skipExisting: bool): (f: Fetched)
    // a success always names the destination path
    ensures f.result.Success? ==> f.result.value == OutPath(outDir, appId)
    // skipping: no request at all, nothing changes
    ensures skipExisting && Present(w, OutPath(outDir, appId)) ==> f == Fetched(Success(OutPath(outDir, appId)), w)
    // otherwise the primary location is always asked first, and at most two requests are made
    ensures !(skipExisting && Present(w, OutPath(outDir, appId))) ==>
      var log := f.world.requests;
      && |w.requests| < |log| <= |w.requests| + 2
      && log[..|w.requests|] == w.requests
      && log[|w.requests|] == PrimaryUrl(appId)
      && (|log| == |w.requests| + 2 ==> log[|w.requests| + 1] == FallbackUrl(appId))
    // the fallback is asked only after the primary failed, and a failure means both failed
    ensures f.result.Failure? ==> |f.world.requests| == |w.requests| + 2 && f.world.files == w.files
    // directory listings are never touched
    ensures f.world.dirs == w.dirs
  {
    var out := OutPath(outDir, appId);
    if skipExisting && Present(w, out) then Fetched(Success(out), w)
    else
      var (first, w1) := Retrieve(w, PrimaryUrl(appId), out);
      if first.Delivered? then Fetched(Success(out), w1)
      else
        var (second, w2) := Retrieve(w1, FallbackUrl(appId), out);
        if second.Delivered? then Fetched(Success(out), w2)
        else Fetched(Failure(second.cause), w2)
  }

  /**
   * Fallback order: when the primary answer is a refusal and the fallback's is a delivery,
   * the call succeeds with the fallback's payload on disk after exactly two requests; when
   * both are refusals, the error raised is the fallback's.
   */
  lemma DownloadFallback(w: World, appId: string, outDir: string, skipExisting: bool)
    requires !(skipExisting && Present(w, OutPath(outDir, appId)))
    requires |w.network| >= 2 && w.network[0].Refused?
    ensures var f := Download(w, appId, outDir, skipExisting);
      && f.world.requests == w.requests + [PrimaryUrl(appId), FallbackUrl(appId)]
      && f.world.network == w.network[2..]
      && (w.network[1].Delivered? ==>
            f.result == Success(OutPath(outDir, appId))
            && f.world.files == w.files[OutPath(outDir, appId) := w.network[1].payload])
      && (w.network[1].Refused? ==> f.result == Failure(w.network[1].cause) && f.world.files == w.files)
  {
    assert w.network[1..][0] == w.network[1];
    assert w.network[1..][1..] == w.network[2..];
  }

  /** A primary delivery ends the call after one request, with that payload on disk. */
  lemma DownloadPrimary(w: World, appId: string, outDir: string, skipExisting: bool)
    requires !(skipExisting && Present(w, OutPath(outDir, appId)))
    requires w.network != [] && w.network[0].Delivered?
    ensures Download(w, appId, outDir, skipExisting) ==
      Fetched(Success(OutPath(outDir, appId)),
              World(w.files[OutPath(outDir, appId) := w.network[0].payload], w.dirs,
                    w.network[1..], w.requests + [PrimaryUrl(appId)]))
  {
  }

  /**
   * Idempotence: once a call has put a non-empty descriptor in place, a second call with
   * skipping on returns the same path without any request.
   */
  lemma DownloadIdempotent(w: World, appId: string, outDir: string, skipExisting: bool)
    requires Download(w, appId, outDir, skipExisting).result.Success?
    requires Present(Download(w, appId, outDir, skipExisting).world, OutPath(outDir, appId))
    ensures var w' := Download(w, appId, outDir, skipExisting).world;
      Download(w', appId, outDir, true) == Fetched(Success(OutPath(outDir, appId)), w')
  {
  }

  /**
   * `download_flatpakref`, looping over the two URLs and remembering the last error.
   * (Python's "Unknown download failure." is unreachable: the loop always records an
   * error before it ends without returning.)
   */
  method DownloadFlatpakref(w: World, appId: string, outDir: string, skipExisting: bool)
    returns (result: Result<string, string>, w': World)
    ensures Fetched(result, w') == Download(w, appId, outDir, skipExisting)
  {
    var outPath := OutPath(outDir, appId);
    if skipExisting && Present(w, outPath) {
      return Success(outPath), w;
    }
    var urls := [PrimaryUrl(appId), FallbackUrl(appId)];
    var lastError: Option<string> := None;
    w' := w;
    for i := 0 to |urls|
      invariant i == 0 ==> w' == w && lastError == None
      invariant i == 1 ==> lastError.Some? && Retrieve(w, urls[0], outPath) == (Refused(lastError.value), w')
      invariant i == 2 ==> lastError.Some? && Download(w, appId, outDir, skipExisting) == Fetched(Failure(lastError.value), w')
    {
      var (answer, next) := Retrieve(w', urls[i], outPath);
      w' := next;
      if answer.Delivered? {
        return Success(outPath), w';
      }
      lastError := Some(answer.cause);
    }
    return Failure(lastError.value), w';
  }
}
