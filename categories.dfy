/**
 * The category index of src/fhtoolkit/query.py: `normalize_category`, `make_ref`, and the
 * loop of `run` that files every dotted component identifier under each of its normalised
 * categories (`by_cat`) while counting category occurrences (`cat_counter`).
 *
 * The index is specified in two layers: `Filings` says which components are filed and under
 * which normalised categories; `Index` and `Counts` say what a sequence of filings puts in the
 * two dictionaries.
 */
module Categories {
  import opened Wrappers
  import opened Text
  import Refs
  import opened Catalog
  import opened Order

  /** `cat.strip().replace(" ", "")`. */
  function NormalizeCategory(cat: string): (r: string)
    ensures ' ' !in r
    ensures Stripped(r)
  {
    Remove(Strip(cat), ' ')
  }

  /** Normalising twice is normalising once. */
  lemma NormalizeIdempotent(cat: string)
    ensures NormalizeCategory(NormalizeCategory(cat)) == NormalizeCategory(cat)
  {
    var once := NormalizeCategory(cat);
    StripStripped(once);
  }

  /** `make_ref(app_id, arch, branch)`: the line `app/<app_id>/<arch>/<branch>`. */
  function MakeRef(appId: string, arch: string, branch: string): (r: string)
    ensures '/' !in appId && '/' !in arch && '/' !in branch ==> Split(r, '/') == ["app", appId, arch, branch]
  {
    var parts := ["app", appId, arch, branch];
    Refs.JoinFour(parts);
    if '/' !in appId && '/' !in arch && '/' !in branch then
      SplitJoin(parts, '/');
      Refs.RefLine(appId, arch, branch)
    else Refs.RefLine(appId, arch, branch)
  }

  /**
   * Round trip with the refs-file grammar: a line written by `make_ref` (with its newline)
   * is read back as the same identifier, provided the identifier is dotted, all three fields
   * are non-empty and free of '/', and the branch is not all whitespace (trailing whitespace
   * of the branch is stripped before matching and does not matter).
   */
  lemma MakeRefRoundTrip(appId: string, arch: string, branch: string)
    requires Refs.Segment(appId) && Refs.Segment(arch) && Refs.Segment(branch)
    requires '.' in appId
    requires exists j :: 0 <= j < |branch| && !IsSpace(branch[j])
    ensures Refs.ParseLine(MakeRef(appId, arch, branch) + "\n") == Some(appId)
    ensures Refs.ParseLine(MakeRef(appId, arch, branch)) == Some(appId)
  {
    var trimmed, tail := SplitTrailing(branch);
    var core := MakeRef(appId, arch, trimmed);
    MakeRefAppend(appId, arch, trimmed, tail);
    assert Stripped(core) by {
      assert core[0] == 'a' && core[|core| - 1] == trimmed[|trimmed| - 1];
    }
    StripTrailing(core, tail);
    Refs.ParseLineComplete(MakeRef(appId, arch, branch) + "\n", appId, arch, trimmed);
    Refs.ParseLineComplete(MakeRef(appId, arch, branch), appId, arch, trimmed);
  }

  /** A branch that is not all whitespace is a field followed by its trailing whitespace. */
  lemma SplitTrailing(branch: string) returns (trimmed: string, tail: string)
    requires Refs.Segment(branch) && exists j :: 0 <= j < |branch| && !IsSpace(branch[j])
    ensures branch == trimmed + tail && AllSpace(tail)
    ensures Refs.Segment(trimmed) && !IsSpace(trimmed[|trimmed| - 1])
  {
    var k := SkipSpaceBack(branch, 0, |branch|);
    trimmed, tail := branch[..k], branch[k..];
    assert k > 0 by {
      var j :| 0 <= j < |branch| && !IsSpace(branch[j]);
    }
    assert forall m :: 0 <= m < k ==> trimmed[m] == branch[m];
    assert forall m :: 0 <= m < |tail| ==> tail[m] == branch[k + m];
    assert branch == trimmed + tail;
  }

  lemma MakeRefAppend(appId: string, arch: string, branch: string, tail: string)
    ensures MakeRef(appId, arch, branch + tail) == MakeRef(appId, arch, branch) + tail
  {
  }

  /** A stripped line followed by whitespace, with or without a newline, strips back to itself. */
  lemma StripTrailing(core: string, tail: string)
    requires Stripped(core) && AllSpace(tail)
    ensures Strip(core + tail) == core && Strip(core + tail + "\n") == core
  {
    assert AllSpace(tail + "\n");
    StripPadded([], core, tail + "\n");
    assert [] + core + (tail + "\n") == core + tail + "\n";
    StripPadded([], core, tail);
    assert [] + core + tail == core + tail;
  }

  // ---------------------------------------------------------------------------------------
  // Which components are filed, and how.

  /** `str(component.get("id", "")).strip()`. */
  function AppIdOf(c: Component): (a: string)
    ensures Stripped(a)
  {
    Strip(c.id.GetOr(""))
  }

  /** The identifier is neither empty nor undotted: the component is filed. */
  predicate Eligible(c: Component)
    ensures Eligible(c) ==> AppIdOf(c) != [] && Stripped(AppIdOf(c))
  {
    '.' in AppIdOf(c)
  }

  /** `component.get("categories", []) or []`, each normalised. */
  function NormCats(c: Component): (ns: seq<string>)
    ensures |ns| == |c.categories.GetOr([])|
  {
    NormalizeAll(c.categories.GetOr([]))
  }

  function NormalizeAll(cats: seq<string>): (ns: seq<string>)
    ensures |ns| == |cats|
  {
    seq(|cats|, i requires 0 <= i < |cats| => NormalizeCategory(cats[i]))
  }

  /** One filed component: its identifier and its normalised categories, in order. */
  datatype Filing = Filing(appId: string, cats: seq<string>)

  /** The filings of the eligible components, in document order. */
  function Filings(comps: seq<Component>): (fs: seq<Filing>)
    ensures |fs| <= |comps|
    ensures forall i :: 0 <= i < |fs| ==> '.' in fs[i].appId
  {
    if comps == [] then []
    else
      var c := comps[|comps| - 1];
      var p := Filings(comps[..|comps| - 1]);
      if Eligible(c) then p + [FilingOf(c)] else p
  }

  /** The filing of an eligible component. */
  function FilingOf(c: Component): Filing {
    Filing(AppIdOf(c), NormCats(c))
  }

  /** The filings grow by one exactly when an eligible component is read. */
  lemma FilingsSnoc(comps: seq<Component>, c: Component)
    ensures Filings(comps + [c]) == Filings(comps) + (if Eligible(c) then [FilingOf(c)] else [])
  {
    assert (comps + [c])[..|comps|] == comps;
  }

  /** A filing comes from an eligible component, and every eligible component is filed. */
  lemma {:induction false} FilingsMembers(comps: seq<Component>, f: Filing)
    ensures f in Filings(comps) <==> exists i :: 0 <= i < |comps| && Eligible(comps[i]) && f == FilingOf(comps[i])
  {
    if comps != [] {
      var n := |comps| - 1;
      var p := comps[..n];
      assert comps == p + [comps[n]];
      FilingsSnoc(p, comps[n]);
      FilingsMembers(p, f);
      if f in Filings(p) {
        var i :| 0 <= i < |p| && Eligible(p[i]) && f == FilingOf(p[i]);
        assert comps[i] == p[i];
      }
      if exists i :: 0 <= i < |comps| && Eligible(comps[i]) && f == FilingOf(comps[i]) {
        var i :| 0 <= i < |comps| && Eligible(comps[i]) && f == FilingOf(comps[i]);
        if i < n {
          assert p[i] == comps[i];
        }
      }
    }
  }

  // ---------------------------------------------------------------------------------------
  // What a sequence of filings puts in `by_cat` and `cat_counter`.

  /** How many times `k` is counted: `cat_counter[k]`. */
  function Occurrences(fs: seq<Filing>, k: string): nat {
    if fs == [] then 0 else Occurrences(fs[..|fs| - 1], k) + multiset(fs[|fs| - 1].cats)[k]
  }

  /** The identifiers filed under `k`: `by_cat[k]`. */
  function CatIds(fs: seq<Filing>, k: string): set<string> {
    if fs == [] then {}
    else CatIds(fs[..|fs| - 1], k) + (if k in fs[|fs| - 1].cats then {fs[|fs| - 1].appId} else {})
  }

  /** Every category filed: the keys of both dictionaries. */
  function AllCats(fs: seq<Filing>): set<string> {
    if fs == [] then {} else AllCats(fs[..|fs| - 1]) + Elems(fs[|fs| - 1].cats)
  }

  function Index(fs: seq<Filing>): map<string, set<string>> {
    map k | k in AllCats(fs) :: CatIds(fs, k)
  }

  function Counts(fs: seq<Filing>): map<string, nat> {
    map k | k in AllCats(fs) :: Occurrences(fs, k)
  }

  /** `by_cat` after the loop over `comps`. */
  function ByCat(comps: seq<Component>): map<string, set<string>> {
    Index(Filings(comps))
  }

  /** `cat_counter` after the loop over `comps`. */
  function Counter(comps: seq<Component>): map<string, nat> {
    Counts(Filings(comps))
  }

  // ---------------------------------------------------------------------------------------
  // The loop.

  /**
   * The aggregation loop of `run`: for every component with a dotted identifier, every
   * category is normalised, counted once, and the identifier filed under it.
   */
  method Aggregate(comps: seq<Component>) returns (byCat: map<string, set<string>>, counter: map<string, nat>)
    ensures byCat == ByCat(comps)
    ensures counter == Counter(comps)
  {
    byCat := map[];
    counter := map[];
    for i := 0 to |comps|
      invariant byCat == Index(Filings(comps[..i]))
      invariant counter == Counts(Filings(comps[..i]))
    {
      var c := comps[i];
      assert comps[..i + 1] == comps[..i] + [c];
      FilingsSnoc(comps[..i], c);
      ghost var fs := Filings(comps[..i]);
      var appId := Strip(c.id.GetOr(""));
      var cats := c.categories.GetOr([]);
      if appId == [] || '.' !in appId {
        continue;
      }
      byCat, counter := FileCategories(byCat, counter, fs, appId, cats);
    }
    assert comps[..|comps|] == comps;
  }

  /**
   * The inner loop of the aggregation: each category of one component with identifier
   * `appId` is normalised, counted, and `appId` filed under it.
   */
  method FileCategories(byCat0: map<string, set<string>>, counter0: map<string, nat>, ghost fs: seq<Filing>,
                        appId: string, cats: seq<string>)
    returns (byCat: map<string, set<string>>, counter: map<string, nat>)
    requires byCat0 == Index(fs) && counter0 == Counts(fs)
    ensures byCat == Index(fs + [Filing(appId, NormalizeAll(cats))])
    ensures counter == Counts(fs + [Filing(appId, NormalizeAll(cats))])
  {
    byCat, counter := byCat0, counter0;
    ghost var norms := NormalizeAll(cats);
    FileNothing(fs, appId);
    for j := 0 to |cats|
      invariant byCat == Index(fs + [Filing(appId, norms[..j])])
      invariant counter == Counts(fs + [Filing(appId, norms[..j])])
    {
      var norm := NormalizeCategory(cats[j]);
      assert norms[j] == norm;
      PrefixSnoc(norms, j);
      FileOneCounts(fs, appId, norms[..j], norm);
      FileOneIndex(fs, appId, norms[..j], norm);
      counter := counter[norm := (if norm in counter then counter[norm] else 0) + 1];
      byCat := byCat[norm := (if norm in byCat then byCat[norm] else {}) + {appId}];
    }
    assert norms[..|cats|] == norms;
  }

  lemma PrefixSnoc<T>(s: seq<T>, j: nat)
    requires j < |s|
    ensures s[..j + 1] == s[..j] + [s[j]]
  {
  }

  lemma Snoc(fs: seq<Filing>, f: Filing)
    ensures var gs := fs + [f];
      && AllCats(gs) == AllCats(fs) + Elems(f.cats)
      && (forall k :: CatIds(gs, k) == CatIds(fs, k) + (if k in f.cats then {f.appId} else {}))
      && (forall k :: Occurrences(gs, k) == Occurrences(fs, k) + multiset(f.cats)[k])
  {
    assert (fs + [f])[..|fs|] == fs;
  }

  /** A filing with no categories changes neither dictionary. */
  lemma FileNothing(fs: seq<Filing>, a: string)
    ensures Index(fs + [Filing(a, [])]) == Index(fs)
    ensures Counts(fs + [Filing(a, [])]) == Counts(fs)
  {
    var gs := fs + [Filing(a, [])];
    Snoc(fs, Filing(a, []));
    assert AllCats(gs) == AllCats(fs);
    forall k | k in AllCats(fs) ensures CatIds(gs, k) == CatIds(fs, k) {
    }
  }

  /** One more category `n` on the last filing: one more count of `n`. */
  lemma FileOneCounts(fs: seq<Filing>, a: string, ns: seq<string>, n: string)
    ensures var before, after := fs + [Filing(a, ns)], fs + [Filing(a, ns + [n])];
      Counts(after) == Counts(before)[n := (if n in Counts(before) then Counts(before)[n] else 0) + 1]
  {
    var before, after := fs + [Filing(a, ns)], fs + [Filing(a, ns + [n])];
    Snoc(fs, Filing(a, ns));
    Snoc(fs, Filing(a, ns + [n]));
    assert multiset(ns + [n]) == multiset(ns) + multiset{n};
    assert AllCats(after) == AllCats(before) + {n};
    KeysCounted(before, n);
  }

  /** One more category `n` on the last filing: its identifier filed under `n`. */
  lemma FileOneIndex(fs: seq<Filing>, a: string, ns: seq<string>, n: string)
    ensures var before, after := fs + [Filing(a, ns)], fs + [Filing(a, ns + [n])];
      Index(after) == Index(before)[n := (if n in Index(before) then Index(before)[n] else {}) + {a}]
  {
    var before, after := fs + [Filing(a, ns)], fs + [Filing(a, ns + [n])];
    Snoc(fs, Filing(a, ns));
    Snoc(fs, Filing(a, ns + [n]));
    assert AllCats(after) == AllCats(before) + {n};
    if n !in AllCats(before) {
      CatIdsKey(before, n);
    }
    assert CatIds(after, n) == CatIds(before, n) + {a};
  }

  /** Under every key at least one identifier is filed. */
  lemma {:induction false} CatIdsNonEmpty(fs: seq<Filing>, k: string)
    requires k in AllCats(fs)
    ensures CatIds(fs, k) != {}
  {
    var p := fs[..|fs| - 1];
    if k in AllCats(p) {
      CatIdsNonEmpty(p, k);
    } else {
      assert fs[|fs| - 1].appId in CatIds(fs, k);
    }
  }

  /** Outside the keys nothing is filed. */
  lemma {:induction false} CatIdsKey(fs: seq<Filing>, k: string)
    requires k !in AllCats(fs)
    ensures CatIds(fs, k) == {}
  {
    if fs != [] {
      CatIdsKey(fs[..|fs| - 1], k);
    }
  }

  // ---------------------------------------------------------------------------------------
  // What the index holds.

  /** A key is in the index exactly when it is counted at least once. */
  lemma {:induction false} KeysCounted(fs: seq<Filing>, k: string)
    ensures k in AllCats(fs) <==> Occurrences(fs, k) > 0
  {
    if fs != [] {
      KeysCounted(fs[..|fs| - 1], k);
    }
  }

  /** Every identifier filed under `k` is the identifier of a filing, and `k` is a key. */
  lemma {:induction false} CatIdsFiled(fs: seq<Filing>, k: string, a: string)
    requires a in CatIds(fs, k)
    ensures exists i :: 0 <= i < |fs| && fs[i].appId == a
    ensures k in AllCats(fs)
  {
    var p := fs[..|fs| - 1];
    if a in CatIds(p, k) {
      CatIdsFiled(p, k, a);
      var i :| 0 <= i < |p| && p[i].appId == a;
      assert fs[i] == p[i];
    } else {
      assert fs[|fs| - 1].appId == a;
    }
  }

  /** `cat_counter[c] >= len(by_cat[c])`: each filed identifier was counted at least once. */
  lemma {:induction false} CountBound(fs: seq<Filing>, k: string)
    ensures |CatIds(fs, k)| <= Occurrences(fs, k)
  {
    if fs != [] {
      var f := fs[|fs| - 1];
      CountBound(fs[..|fs| - 1], k);
      if k in f.cats {
        assert multiset(f.cats)[k] >= 1;
      }
    }
  }

  /** An identifier is filed under `k` exactly when some filing with that identifier lists `k`. */
  lemma {:induction false} CatIdsMembers(fs: seq<Filing>, k: string, a: string)
    ensures a in CatIds(fs, k) <==> exists i :: 0 <= i < |fs| && fs[i].appId == a && k in fs[i].cats
  {
    if fs != [] {
      var n := |fs| - 1;
      var p := fs[..n];
      CatIdsMembers(p, k, a);
      if a in CatIds(p, k) {
        var i :| 0 <= i < |p| && p[i].appId == a && k in p[i].cats;
        assert fs[i] == p[i];
      }
      if exists i :: 0 <= i < |fs| && fs[i].appId == a && k in fs[i].cats {
        var i :| 0 <= i < |fs| && fs[i].appId == a && k in fs[i].cats;
        if i < n {
          assert p[i] == fs[i];
        }
      }
    }
  }

  /**
   * On components: an identifier is filed under `k` exactly when some component with that
   * dotted identifier lists a category that normalises to `k`.
   */
  lemma ByCatMembers(comps: seq<Component>, k: string, a: string)
    ensures (k in ByCat(comps) && a in ByCat(comps)[k]) <==>
      exists i :: 0 <= i < |comps| && Eligible(comps[i]) && AppIdOf(comps[i]) == a && k in NormCats(comps[i])
  {
    var fs := Filings(comps);
    CatIdsMembers(fs, k, a);
    if a in CatIds(fs, k) {
      CatIdsFiled(fs, k, a);
      var i :| 0 <= i < |fs| && fs[i].appId == a && k in fs[i].cats;
      FilingsMembers(comps, fs[i]);
    }
    if exists i :: 0 <= i < |comps| && Eligible(comps[i]) && AppIdOf(comps[i]) == a && k in NormCats(comps[i]) {
      var i :| 0 <= i < |comps| && Eligible(comps[i]) && AppIdOf(comps[i]) == a && k in NormCats(comps[i]);
      var f := FilingOf(comps[i]);
      FilingsMembers(comps, f);
      var j :| 0 <= j < |fs| && fs[j] == f;
      assert a in CatIds(fs, k);
      CatIdsFiled(fs, k, a);
    }
  }

  /** Components without a dotted identifier are filed nowhere and counted nowhere. */
  lemma IneligibleIgnored(comps: seq<Component>, c: Component)
    requires !Eligible(c)
    ensures ByCat(comps + [c]) == ByCat(comps) && Counter(comps + [c]) == Counter(comps)
  {
    assert (comps + [c])[..|comps|] == comps;
  }

  /** The index's two maps have the same keys, and every count covers its identifiers. */
  lemma IndexProperties(comps: seq<Component>)
    ensures ByCat(comps).Keys == Counter(comps).Keys
    ensures forall k :: k in ByCat(comps) ==> |ByCat(comps)[k]| <= Counter(comps)[k] && Counter(comps)[k] > 0
    ensures forall k, a :: k in ByCat(comps) && a in ByCat(comps)[k] ==> '.' in a
  {
    var fs := Filings(comps);
    forall k | k in ByCat(comps) ensures |ByCat(comps)[k]| <= Counter(comps)[k] && Counter(comps)[k] > 0 {
      CountBound(fs, k);
      KeysCounted(fs, k);
    }
    forall k, a | k in ByCat(comps) && a in ByCat(comps)[k] ensures '.' in a {
      CatIdsFiled(fs, k, a);
    }
  }
}
