/**
 * The few pieces of Python's `str` that the tool relies on: `isspace`, `strip`,
 * `replace(c, "")`, `lower`, `endswith`, `split(sep)`, and the way a text file is
 * cut into lines when it is iterated.
 */
module Text {

  /** Python's `str.isspace` for one character (the whitespace set that `strip()` and `\s` use). */
  predicate IsSpace(c: char) {
    var n := c as int;
    (9 <= n <= 13) || (28 <= n <= 32) || n == 0x85 || n == 0xA0 || n == 0x1680
    || (0x2000 <= n <= 0x200A) || n == 0x2028 || n == 0x2029 || n == 0x202F
    || n == 0x205F || n == 0x3000
  }

  predicate AllSpace(s: string) {
    forall i :: 0 <= i < |s| ==> IsSpace(s[i])
  }

  /** Neither starts nor ends with whitespace: what `strip()` leaves behind. */
  predicate Stripped(s: string) {
    s == [] || (!IsSpace(s[0]) && !IsSpace(s[|s| - 1]))
  }

  /** The first index at or after `i` that holds no whitespace, or `|s|`. */
  function SkipSpace(s: string, i: nat): (k: nat)
    requires i <= |s|
    ensures i <= k <= |s|
    ensures forall j :: i <= j < k ==> IsSpace(s[j])
    ensures k < |s| ==> !IsSpace(s[k])
    decreases |s| - i
  {
    if i < |s| && IsSpace(s[i]) then SkipSpace(s, i + 1) else i
  }

  /** The end of `s[lo..j]` once its trailing whitespace is gone. */
  function SkipSpaceBack(s: string, lo: nat, j: nat): (k: nat)
    requires lo <= j <= |s|
    ensures lo <= k <= j
    ensures forall m :: k <= m < j ==> IsSpace(s[m])
    ensures k > lo ==> !IsSpace(s[k - 1])
  {
    if j > lo && IsSpace(s[j - 1]) then SkipSpaceBack(s, lo, j - 1) else j
  }

  /** A whitespace run that ends at `k` is the one `SkipSpace` finds. */
  lemma SkipSpaceAt(s: string, i: nat, k: nat)
    requires i <= k <= |s|
    requires forall j :: i <= j < k ==> IsSpace(s[j])
    requires k < |s| ==> !IsSpace(s[k])
    ensures SkipSpace(s, i) == k
  {
  }

  /** A whitespace run that starts at `k` is the one `SkipSpaceBack` finds. */
  lemma SkipSpaceBackAt(s: string, lo: nat, j: nat, k: nat)
    requires lo <= k <= j <= |s|
    requires forall m :: k <= m < j ==> IsSpace(s[m])
    requires k > lo ==> !IsSpace(s[k - 1])
    ensures SkipSpaceBack(s, lo, j) == k
  {
  }

  /** `s.lstrip()`: what remains once the leading whitespace is gone. */
  function TrimLeft(s: string): (r: string)
    ensures r != [] ==> !IsSpace(r[0])
  {
    s[SkipSpace(s, 0)..]
  }

  /** `s.strip()`: the middle of `s`, between a whitespace-only head and tail. */
  function Strip(s: string): (r: string)
    ensures Stripped(r)
  {
    var a := SkipSpace(s, 0);
    s[a..SkipSpaceBack(s, a, |s|)]
  }

  /** Whitespace around a stripped string is exactly what `strip()` takes away. */
  lemma StripPadded(w1: string, t: string, w2: string)
    requires AllSpace(w1) && AllSpace(w2) && Stripped(t)
    ensures Strip(w1 + t + w2) == t
  {
    var s := w1 + t + w2;
    if t == [] {
      SkipSpaceAt(s, 0, |s|);
      SkipSpaceBackAt(s, |s|, |s|, |s|);
      assert Strip(s) == s[|s|..|s|];
    } else {
      assert s[|w1|] == t[0];
      assert s[|w1| + |t| - 1] == t[|t| - 1];
      SkipSpaceAt(s, 0, |w1|);
      SkipSpaceBackAt(s, |w1|, |s|, |w1| + |t|);
      assert s[|w1|..|w1| + |t|] == t;
    }
  }

  /** Leading whitespace is exactly what `lstrip()` takes away. */
  lemma TrimLeftPadded(w: string, s: string)
    requires AllSpace(w) && (s == [] || !IsSpace(s[0]))
    ensures TrimLeft(w + s) == s
  {
    var x := w + s;
    if s != [] {
      assert x[|w|] == s[0];
    }
    SkipSpaceAt(x, 0, |w|);
    assert x[|w|..] == s;
  }

  /** A stripped string is left alone by `strip()`. */
  lemma StripStripped(s: string)
    requires Stripped(s)
    ensures Strip(s) == s
  {
    assert [] + s + [] == s;
    StripPadded([], s, []);
  }

  /** `s.replace(c, "")`: every `c` removed, everything else kept in order. */
  function Remove(s: string, c: char): (r: string)
    ensures c !in r
    ensures c !in s ==> r == s
    ensures s != [] && s[0] != c ==> r != [] && r[0] == s[0]
    ensures s != [] && s[|s| - 1] != c ==> r != [] && r[|r| - 1] == s[|s| - 1]
  {
    if s == [] then []
    else if s[0] == c then Remove(s[1..], c)
    else [s[0]] + Remove(s[1..], c)
  }

  /** Removing `c` keeps every other character, as many times as it occurs. */
  lemma {:induction false} RemoveCounts(s: string, c: char)
    ensures multiset(Remove(s, c)) == multiset(s)[c := 0]
  {
    if s != [] {
      RemoveCounts(s[1..], c);
      assert s == [s[0]] + s[1..];
      assert multiset(s) == multiset{s[0]} + multiset(s[1..]);
    }
  }

  /**
   * Removing `c` from a concatenation removes it from each part, so the characters kept
   * stay in their original order.
   */
  lemma {:induction false} RemoveAppend(a: string, b: string, c: char)
    ensures Remove(a + b, c) == Remove(a, c) + Remove(b, c)
  {
    if a != [] {
      assert (a + b)[0] == a[0] && (a + b)[1..] == a[1..] + b;
      RemoveAppend(a[1..], b, c);
    } else {
      assert a + b == b;
    }
  }

  /** ASCII case mapping, the part of `str.lower` that a ".refs" suffix test can see. */
  function LowerChar(c: char): char {
    if 'A' <= c <= 'Z' then (c as int + 32) as char else c
  }

  function Lower(s: string): (r: string)
    ensures |r| == |s|
  {
    seq(|s|, i requires 0 <= i < |s| => LowerChar(s[i]))
  }

  predicate EndsWith(s: string, suffix: string) {
    |suffix| <= |s| && s[|s| - |suffix|..] == suffix
  }

  /** `s.split(sep)`: the pieces between separators, which join back to `s`. */
  function Split(s: string, sep: char): (parts: seq<string>)
    ensures |parts| >= 1
    ensures forall i :: 0 <= i < |parts| ==> sep !in parts[i]
    ensures Join(parts, sep) == s
  {
    if s == [] then [""]
    else
      var rest := Split(s[1..], sep);
      if s[0] == sep then [""] + rest
      else
        assert Join([[s[0]] + rest[0]] + rest[1..], sep) == [s[0]] + Join(rest, sep);
        [[s[0]] + rest[0]] + rest[1..]
  }

  /** `sep.join(parts)`. */
  function Join(parts: seq<string>, sep: char): string
    requires |parts| >= 1
  {
    if |parts| == 1 then parts[0] else parts[0] + [sep] + Join(parts[1..], sep)
  }

  /** Splitting a join of separator-free pieces gives the pieces back. */
  lemma {:induction false} SplitJoin(parts: seq<string>, sep: char)
    requires |parts| >= 1
    requires forall i :: 0 <= i < |parts| ==> sep !in parts[i]
    ensures Split(Join(parts, sep), sep) == parts
  {
    if |parts| == 1 {
      SplitFree(parts[0], sep);
    } else {
      SplitJoin(parts[1..], sep);
      SplitPrefix(parts[0], Join(parts[1..], sep), sep);
      assert [parts[0]] + parts[1..] == parts;
    }
  }

  lemma {:induction false} SplitFree(p: string, sep: char)
    requires sep !in p
    ensures Split(p, sep) == [p]
  {
    if p != [] {
      SplitFree(p[1..], sep);
      assert [p[0]] + p[1..] == p;
    }
  }

  lemma {:induction false} SplitPrefix(p: string, rest: string, sep: char)
    requires sep !in p
    ensures Split(p + [sep] + rest, sep) == [p] + Split(rest, sep)
  {
    if p == [] {
      assert p + [sep] + rest == [sep] + rest;
      assert ([sep] + rest)[1..] == rest;
    } else {
      assert (p + [sep] + rest)[1..] == p[1..] + [sep] + rest;
      SplitPrefix(p[1..], rest, sep);
      assert [p[0]] + p[1..] == p;
    }
  }

  /**
   * The lines a text file yields when iterated: each line keeps its '\n' terminator,
   * a final line without one is kept as it is, and an empty file has no lines.
   */
  function Lines(s: string): (ls: seq<string>)
    ensures s != [] ==> ls != []
  {
    if s == [] then []
    else if s[0] == '\n' then ["\n"] + Lines(s[1..])
    else
      var rest := Lines(s[1..]);
      if rest == [] then [s] else [[s[0]] + rest[0]] + rest[1..]
  }

  /** The lines put back together. */
  function Concat(ls: seq<string>): string {
    if ls == [] then [] else ls[0] + Concat(ls[1..])
  }

  /** Non-empty lines, with a '\n' only as the last character, and every line but the last ending in one. */
  ghost predicate LineShaped(ls: seq<string>) {
    forall i :: 0 <= i < |ls| ==>
      && ls[i] != []
      && '\n' !in ls[i][..|ls[i]| - 1]
      && (i < |ls| - 1 ==> ls[i][|ls[i]| - 1] == '\n')
  }

  /** Iterating the lines loses nothing. */
  lemma {:induction false} LinesConcat(s: string)
    ensures Concat(Lines(s)) == s
  {
    if s != [] {
      var rest := Lines(s[1..]);
      LinesConcat(s[1..]);
      assert s == [s[0]] + s[1..];
      if s[0] == '\n' {
        assert Lines(s)[1..] == rest;
      } else if rest == [] {
        assert s[1..] == [];
      } else {
        assert Lines(s)[1..] == rest[1..];
        assert Concat(rest) == rest[0] + Concat(rest[1..]);
      }
    }
  }

  /** The lines are cut exactly after each '\n'. */
  lemma {:induction false} LinesShaped(s: string)
    ensures LineShaped(Lines(s))
  {
    if s != [] {
      var rest := Lines(s[1..]);
      LinesShaped(s[1..]);
      if s[0] == '\n' {
        ShapedCons("\n", rest);
      } else if rest == [] {
        assert s[1..] == [];
        assert s[..|s| - 1] == [];
        ShapedCons(s, []);
        assert [s] + [] == [s];
      } else {
        var first := [s[0]] + rest[0];
        assert first[..|first| - 1] == [s[0]] + rest[0][..|rest[0]| - 1];
        ShapedTail(rest);
        ShapedCons(first, rest[1..]);
      }
    }
  }

  lemma ShapedCons(line: string, ls: seq<string>)
    requires line != [] && '\n' !in line[..|line| - 1]
    requires ls != [] ==> line[|line| - 1] == '\n'
    requires LineShaped(ls)
    ensures LineShaped([line] + ls)
  {
    var r := [line] + ls;
    forall i | 1 <= i < |r| ensures r[i] == ls[i - 1] { }
  }

  lemma ShapedTail(ls: seq<string>)
    requires ls != [] && LineShaped(ls)
    ensures LineShaped(ls[1..])
    ensures |ls| > 1 ==> ls[0][|ls[0]| - 1] == '\n'
  {
    forall i | 0 <= i < |ls| - 1 ensures ls[1..][i] == ls[i + 1] { }
  }

  /** What writing each line followed by "\n" puts in a file. */
  function Render(ls: seq<string>): string {
    if ls == [] then [] else ls[0] + "\n" + Render(ls[1..])
  }

  function Terminated(ls: seq<string>): (r: seq<string>)
    ensures |r| == |ls|
  {
    seq(|ls|, i requires 0 <= i < |ls| => ls[i] + "\n")
  }

  /** Reading back a file written line by line gives the written lines, each with its "\n". */
  lemma {:induction false} LinesRender(ls: seq<string>)
    requires forall i :: 0 <= i < |ls| ==> '\n' !in ls[i]
    ensures Lines(Render(ls)) == Terminated(ls)
  {
    if ls != [] {
      LinesRender(ls[1..]);
      LinesOfLine(ls[0], Render(ls[1..]));
      assert [ls[0] + "\n"] + Terminated(ls[1..]) == Terminated(ls);
    }
  }

  lemma {:induction false} LinesOfLine(l: string, rest: string)
    requires '\n' !in l
    ensures Lines(l + "\n" + rest) == [l + "\n"] + Lines(rest)
  {
    if l == [] {
      assert l + "\n" + rest == ['\n'] + rest;
      assert (['\n'] + rest)[1..] == rest;
    } else {
      assert (l + "\n" + rest)[1..] == l[1..] + "\n" + rest;
      LinesOfLine(l[1..], rest);
      assert [l[0]] + (l[1..] + "\n") == l + "\n";
    }
  }
}
