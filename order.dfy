/**
 * Python's ordering of `str` values (code point by code point, a proper prefix first)
 * and the two uses of `sorted` in the tool: over a set, which gives a strictly ascending
 * list without repeats, and over a list, which keeps every entry.
 */
module Order {

  /** `a < b` on Python strings. */
  predicate Less(a: string, b: string) {
    if a == [] then b != []
    else if b == [] then false
    else if a[0] != b[0] then a[0] < b[0]
    else Less(a[1..], b[1..])
  }

  lemma LessIrreflexive(a: string)
    ensures !Less(a, a)
  {
  }

  lemma LessAsymmetric(a: string, b: string)
    requires Less(a, b)
    ensures !Less(b, a)
  {
  }

  lemma LessTransitive(a: string, b: string, c: string)
    requires Less(a, b) && Less(b, c)
    ensures Less(a, c)
  {
  }

  lemma LessTotal(a: string, b: string)
    ensures a == b || Less(a, b) || Less(b, a)
  {
  }

  /** Strictly ascending: what `sorted` gives for a set. */
  predicate StrictlySorted(s: seq<string>) {
    forall i, j :: 0 <= i < j < |s| ==> Less(s[i], s[j])
  }

  /** Non-descending: what `sorted` gives for a list. */
  predicate Sorted(s: seq<string>) {
    forall i, j :: 0 <= i < j < |s| ==> !Less(s[j], s[i])
  }

  /** Adds `x` to a strictly ascending list, unless it is there already. */
  function InsertUnique(x: string, s: seq<string>): (r: seq<string>)
    requires StrictlySorted(s)
    ensures StrictlySorted(r)
    ensures forall y :: y in r <==> y in s || y == x
    ensures |r| == if x in s then |s| else |s| + 1
  {
    if s == [] then [x]
    else if x == s[0] then s
    else if Less(x, s[0]) then
      assert forall j :: 0 <= j < |s| ==> Less(x, s[j]) by {
        forall j | 0 <= j < |s| ensures Less(x, s[j]) {
          if j > 0 { LessTransitive(x, s[0], s[j]); }
        }
      }
      assert x !in s by {
        forall j | 0 <= j < |s| ensures s[j] != x {
          LessIrreflexive(x);
        }
      }
      [x] + s
    else
      LessTotal(x, s[0]);
      var rest := InsertUnique(x, s[1..]);
      assert forall y :: y in rest ==> Less(s[0], y);
      assert s[0] !in s[1..] by {
        forall j | 1 <= j < |s| ensures s[j] != s[0] {
          LessIrreflexive(s[0]);
        }
      }
      assert s == [s[0]] + s[1..];
      [s[0]] + rest
  }

  /** Two strictly ascending lists with the same members are the same list. */
  lemma {:induction false} SortedUnique(a: seq<string>, b: seq<string>)
    requires StrictlySorted(a) && StrictlySorted(b)
    requires forall y :: y in a <==> y in b
    ensures a == b
  {
    SortedDistinctCard(a, Elems(a));
    SortedDistinctCard(b, Elems(a));
    if a != [] {
      assert a[0] == b[0] by {
        if a[0] != b[0] {
          assert b[0] in a && a[0] in b;
          var i :| 0 <= i < |a| && a[i] == b[0];
          var j :| 0 <= j < |b| && b[j] == a[0];
          assert Less(a[0], b[0]);
          assert Less(b[0], a[0]);
          LessAsymmetric(a[0], b[0]);
        }
      }
      forall y ensures y in a[1..] <==> y in b[1..] {
        if y in a[1..] {
          var i :| 1 <= i < |a| && a[i] == y;
          assert Less(a[0], y);
          LessIrreflexive(y);
          assert y in b;
        }
        if y in b[1..] {
          var j :| 1 <= j < |b| && b[j] == y;
          assert Less(b[0], y);
          LessIrreflexive(y);
          assert y in a;
        }
      }
      SortedUnique(a[1..], b[1..]);
      assert a == [a[0]] + a[1..] && b == [b[0]] + b[1..];
    }
  }

  lemma {:induction false} SortedExists(s: set<string>)
    ensures exists r :: StrictlySorted(r) && forall y :: y in r <==> y in s
    decreases |s|
  {
    if s == {} {
      assert StrictlySorted([]) && forall y :: y in [] <==> y in s;
    } else {
      var x :| x in s;
      SortedExists(s - {x});
      var r :| StrictlySorted(r) && forall y :: y in r <==> y in s - {x};
      var r' := InsertUnique(x, r);
      assert forall y :: y in r' <==> y in s;
    }
  }

  /** `sorted(s)` for a set `s`: its members, each once, in ascending order. */
  ghost function SortedSeq(s: set<string>): (r: seq<string>)
    ensures StrictlySorted(r)
    ensures forall y :: y in r <==> y in s
  {
    SortedExists(s);
    var r :| StrictlySorted(r) && forall y :: y in r <==> y in s;
    r
  }

  /** Sorting a set reorders it without losing or repeating anything. */
  lemma SortedSeqLength(s: set<string>)
    ensures |SortedSeq(s)| == |s|
  {
    var r := SortedSeq(s);
    SortedDistinctCard(r, s);
  }

  lemma {:induction false} SortedDistinctCard(r: seq<string>, s: set<string>)
    requires StrictlySorted(r)
    requires forall y :: y in r <==> y in s
    ensures |r| == |s|
    decreases |r|
  {
    if r != [] {
      var x := r[|r| - 1];
      var p := r[..|r| - 1];
      assert x !in p by {
        forall j | 0 <= j < |p| ensures p[j] != x {
          assert Less(r[j], r[|r| - 1]);
          LessIrreflexive(x);
        }
      }
      assert forall y :: y in p <==> y in s - {x} by {
        assert r == p + [x];
      }
      SortedDistinctCard(p, s - {x});
    } else {
      assert forall y :: y !in s;
      assert s == {};
    }
  }

  /** The elements of a list, as `set(xs)` gives them. */
  function Elems(xs: seq<string>): (s: set<string>)
    ensures forall y :: y in s <==> y in xs
  {
    set x | x in xs
  }

  /** `sorted(s)` for a set, computed by inserting its members one at a time. */
  method SortSet(s: set<string>) returns (r: seq<string>)
    ensures r == SortedSeq(s)
  {
    r := [];
    var rest := s;
    while rest != {}
      invariant StrictlySorted(r)
      invariant rest <= s
      invariant forall y :: y in r <==> y in s && y !in rest
      decreases |rest|
    {
      var x :| x in rest;
      r := InsertUnique(x, r);
      rest := rest - {x};
    }
    SortedUnique(r, SortedSeq(s));
  }

  /** `sorted(set(xs))` for a list `xs`: one pass that inserts each entry. */
  method SortedDistinct(xs: seq<string>) returns (r: seq<string>)
    ensures r == SortedSeq(Elems(xs))
  {
    r := [];
    for i := 0 to |xs|
      invariant StrictlySorted(r)
      invariant forall y :: y in r <==> y in xs[..i]
    {
      assert xs[..i + 1] == xs[..i] + [xs[i]];
      r := InsertUnique(xs[i], r);
    }
    assert xs[..|xs|] == xs;
    SortedUnique(r, SortedSeq(Elems(xs)));
  }

  /** Adds `x` to a non-descending list, after every entry that is not greater. */
  function Insert(x: string, s: seq<string>): (r: seq<string>)
    requires Sorted(s)
    ensures Sorted(r)
    ensures multiset(r) == multiset(s) + multiset{x}
  {
    if s == [] then [x]
    else if Less(x, s[0]) then
      assert forall j :: 0 <= j < |s| ==> !Less(s[j], x) by {
        forall j | 0 <= j < |s| ensures !Less(s[j], x) {
          if j > 0 {
            LessTotal(s[0], s[j]);
            if s[0] != s[j] { LessTransitive(x, s[0], s[j]); }
          }
          LessAsymmetric(x, s[j]);
        }
      }
      [x] + s
    else
      var rest := Insert(x, s[1..]);
      assert forall y :: y in multiset(rest) ==> y == x || y in s[1..];
      assert forall y :: y in rest ==> !Less(y, s[0]) by {
        forall y | y in rest ensures !Less(y, s[0]) {
          assert y in multiset(rest);
        }
      }
      assert s == [s[0]] + s[1..];
      [s[0]] + rest
  }

  /** `sorted(xs)` for a list: the same entries, repeats kept, in non-descending order. */
  function SortedList(xs: seq<string>): (r: seq<string>)
    ensures Sorted(r)
    ensures multiset(r) == multiset(xs)
  {
    if xs == [] then []
    else
      assert xs == xs[..|xs| - 1] + [xs[|xs| - 1]];
      Insert(xs[|xs| - 1], SortedList(xs[..|xs| - 1]))
  }

  /**
   * A non-descending list is determined by its entries: any two sorted arrangements of the
   * same multiset coincide, so `SortedList` is what `sorted` returns, whatever the algorithm.
   */
  lemma {:induction false} SortedListUnique(a: seq<string>, b: seq<string>)
    requires Sorted(a) && Sorted(b)
    requires multiset(a) == multiset(b)
    ensures a == b
  {
    if a != [] {
      assert |b| == |multiset(b)| == |multiset(a)| == |a|;
      SortedHeads(a, b);
      TailMultiset(a);
      TailMultiset(b);
      SortedListUnique(a[1..], b[1..]);
      assert a == [a[0]] + a[1..] && b == [b[0]] + b[1..];
    }
  }

  lemma SortedHeads(a: seq<string>, b: seq<string>)
    requires Sorted(a) && Sorted(b) && a != [] && b != []
    requires multiset(a) == multiset(b)
    ensures a[0] == b[0]
  {
    assert a[0] in multiset(b) && b[0] in multiset(a);
    var j :| 0 <= j < |b| && b[j] == a[0];
    var i :| 0 <= i < |a| && a[i] == b[0];
    LessIrreflexive(a[0]);
    LessIrreflexive(b[0]);
    assert !Less(b[j], b[0]) && !Less(a[i], a[0]);
    LessTotal(a[0], b[0]);
  }

  lemma TailMultiset(a: seq<string>)
    requires a != []
    ensures multiset(a[1..]) == multiset(a) - multiset{a[0]}
  {
    assert a == [a[0]] + a[1..];
  }

  /** `sorted(xs)` for a list, computed by inserting each entry in turn. */
  method SortList(xs: seq<string>) returns (r: seq<string>)
    ensures r == SortedList(xs)
  {
    r := [];
    for i := 0 to |xs|
      invariant r == SortedList(xs[..i])
    {
      assert xs[..i + 1][..i] == xs[..i];
      r := Insert(xs[i], r);
    }
    assert xs[..|xs|] == xs;
  }
}
