/** The three Python string operations the scraper relies on, written out
    over `seq<char>`: `str.split` with a one-character separator,
    `str.join`, and the non-overlapping `str.count`. */
module Text {

  /** `s.split(sep)` for a single-character separator: every separator ends a
      piece, so empty pieces are kept ("a  b" gives ["a", "", "b"]) and the
      empty string gives [""]. */
  function Split(s: string, sep: char): (parts: seq<string>)
    ensures |parts| == multiset(s)[sep] + 1
    ensures forall k :: 0 <= k < |parts| ==> sep !in parts[k]
    decreases |s|
  {
    if |s| == 0 then [""]
    else
      assert s == [s[0]] + s[1..];
      var rest := Split(s[1..], sep);
      if s[0] == sep then [""] + rest
      else [[s[0]] + rest[0]] + rest[1..]
  }

  /** `sep.join(parts)`: the pieces in order, `sep` between each two. */
  function Join(sep: string, parts: seq<string>): (r: string)
    ensures |parts| == 0 ==> r == ""
    ensures |parts| > 0 ==> parts[0] <= r && EndsWith(r, parts[|parts| - 1])
    decreases |parts|
  {
    if |parts| == 0 then ""
    else if |parts| == 1 then parts[0]
    else
      var rest := Join(sep, parts[1..]);
      assert parts[1..][|parts| - 2] == parts[|parts| - 1];
      assert EndsWith(parts[0] + sep + rest, rest);
      parts[0] + sep + rest
  }

  /** The total length of the pieces. */
  function SumLengths(parts: seq<string>): nat
  {
    if |parts| == 0 then 0 else |parts[0]| + SumLengths(parts[1..])
  }

  /** The joined string is as long as the pieces plus one separator between
      each two. */
  lemma {:induction false} JoinLength(sep: string, parts: seq<string>)
    requires |parts| > 0
    ensures |Join(sep, parts)| == (|parts| - 1) * |sep| + SumLengths(parts)
    decreases |parts|
  {
    if |parts| > 1 {
      var rest := parts[1..];
      JoinLength(sep, rest);
      MulSucc(|rest| - 1, |sep|);
      assert Join(sep, parts) == parts[0] + sep + Join(sep, rest);
    }
  }

  lemma MulSucc(a: nat, b: nat)
    ensures (a + 1) * b == a * b + b
  {
  }

  /** The reference definition of a one-character substitution: every `from`
      becomes `to`, every other character is kept where it was. */
  function ReplaceChar(s: string, from: char, to: char): (r: string)
  {
    seq(|s|, k requires 0 <= k < |s| => if s[k] == from then to else s[k])
  }

  lemma JoinConsHead(sep: string, c: char, parts: seq<string>)
    requires |parts| >= 1
    ensures Join(sep, [[c] + parts[0]] + parts[1..]) == [c] + Join(sep, parts)
  {
    var ps := [[c] + parts[0]] + parts[1..];
    if |parts| > 1 {
      assert ps[1..] == parts[1..];
    }
  }

  /** Joining the pieces of `s.split(from)` with `to` replaces every `from`
      by `to` and changes nothing else. */
  lemma {:induction false} JoinSplitIsReplace(s: string, from: char, to: char)
    ensures Join([to], Split(s, from)) == ReplaceChar(s, from, to)
    decreases |s|
  {
    if |s| > 0 {
      var rest := Split(s[1..], from);
      JoinSplitIsReplace(s[1..], from, to);
      ReplaceCharCons(s, from, to);
      if s[0] == from {
        assert Split(s, from) == [""] + rest;
        JoinConsEmpty([to], rest);
      } else {
        assert Split(s, from) == [[s[0]] + rest[0]] + rest[1..];
        JoinConsHead([to], s[0], rest);
      }
    }
  }

  lemma ReplaceCharCons(s: string, from: char, to: char)
    requires |s| > 0
    ensures ReplaceChar(s, from, to) == [if s[0] == from then to else s[0]] + ReplaceChar(s[1..], from, to)
  {
  }

  lemma JoinConsEmpty(sep: string, parts: seq<string>)
    requires |parts| >= 1
    ensures Join(sep, [""] + parts) == sep + Join(sep, parts)
  {
    assert ([""] + parts)[1..] == parts;
  }

  /** Round trip one way: splitting and joining with the same character gives the input back. */
  lemma JoinSplitRoundTrip(s: string, sep: char)
    ensures Join([sep], Split(s, sep)) == s
  {
    JoinSplitIsReplace(s, sep, sep);
    assert ReplaceChar(s, sep, sep) == s;
  }

  lemma {:induction false} SplitNoSeparator(a: string, sep: char)
    requires sep !in a
    ensures Split(a, sep) == [a]
    decreases |a|
  {
    if |a| > 0 {
      SplitNoSeparator(a[1..], sep);
      assert [a[0]] + a[1..] == a;
    }
  }

  lemma {:induction false} SplitAfterPiece(a: string, sep: char, b: string)
    requires sep !in a
    ensures Split(a + [sep] + b, sep) == [a] + Split(b, sep)
    decreases |a|
  {
    var s := a + [sep] + b;
    if |a| == 0 {
      assert s == [sep] + b;
      assert s[1..] == b;
    } else {
      assert s[1..] == a[1..] + [sep] + b;
      SplitAfterPiece(a[1..], sep, b);
      assert [a[0]] + a[1..] == a;
    }
  }

  /** Round trip the other way: pieces that do not contain the separator come
      back unchanged after joining and splitting. */
  lemma {:induction false} SplitJoinRoundTrip(parts: seq<string>, sep: char)
    requires |parts| >= 1
    requires forall k :: 0 <= k < |parts| ==> sep !in parts[k]
    ensures Split(Join([sep], parts), sep) == parts
    decreases |parts|
  {
    if |parts| == 1 {
      SplitNoSeparator(parts[0], sep);
    } else {
      SplitJoinRoundTrip(parts[1..], sep);
      SplitAfterPiece(parts[0], sep, Join([sep], parts[1..]));
      assert [parts[0]] + parts[1..] == parts;
    }
  }

  /** `s` ends with `suffix` (Python's `s.endswith(suffix)`). */
  predicate EndsWith(s: string, suffix: string)
  {
    |suffix| <= |s| && s[|s| - |suffix|..] == suffix
  }

  /** `p` occurs somewhere in `s`. */
  ghost predicate Occurs(p: string, s: string)
  {
    exists i :: OccursAt(p, s, i)
  }

  /** `p` occurs in `s` starting at index `i`. */
  predicate OccursAt(p: string, s: string, i: int)
  {
    0 <= i <= |s| - |p| && s[i..i + |p|] == p
  }

  /** `s.count(p)`: occurrences of `p` found scanning left to right, each search
      resuming after the previous match, so matches never overlap; an empty `p`
      is counted at every position, |s| + 1 times. */
  function Count(s: string, p: string): (n: nat)
    ensures |p| > 0 ==> n * |p| <= |s|
    ensures |p| == 0 ==> n == |s| + 1
    decreases |s|
  {
    if |p| == 0 then |s| + 1
    else if |s| < |p| then 0
    else if s[..|p|] == p then
      var m := Count(s[|p|..], p);
      assert (1 + m) * |p| == m * |p| + |p|;
      1 + m
    else Count(s[1..], p)
  }

  /** Position `i` lies inside one of the windows of width `w` starting at `xs`. */
  ghost predicate Covered(xs: seq<nat>, w: nat, i: int)
  {
    exists k :: 0 <= k < |xs| && xs[k] <= i < xs[k] + w
  }

  /** `xs` are the left-to-right, non-overlapping leftmost matches of `p` in
      `s`: each is an occurrence, each starts at or after the end of the one
      before, and every occurrence of `p` starts at a match or inside one, so
      none lies before the first match, between one match's end and the next
      match, or after the last match's end. */
  ghost predicate LeftmostMatches(p: string, s: string, xs: seq<nat>)
  {
    && (forall k :: 0 <= k < |xs| ==> OccursAt(p, s, xs[k]))
    && (forall k :: 0 <= k < |xs| - 1 ==> xs[k] + |p| <= xs[k + 1])
    && (forall i :: OccursAt(p, s, i) ==> Covered(xs, |p|, i))
  }

  /** `xs` are leftmost matches of `p` in `s` from position `d` on: each an
      occurrence at or after `d`, each starting at or after the end of the
      one before, and together covering every occurrence from `d` on. */
  ghost predicate MatchesFrom(p: string, s: string, d: nat, xs: seq<nat>)
  {
    && (forall k :: 0 <= k < |xs| ==> d <= xs[k] && OccursAt(p, s, xs[k]))
    && (forall k :: 0 <= k < |xs| - 1 ==> xs[k] + |p| <= xs[k + 1])
    && (forall i :: d <= i && OccursAt(p, s, i) ==> Covered(xs, |p|, i))
  }

  /** Too short a suffix holds no match and counts zero. */
  lemma CountShort(s: string, p: string, d: nat)
    requires |p| > 0 && d <= |s| && |s| - d < |p|
    ensures Count(s[d..], p) == 0
    ensures MatchesFrom(p, s, d, [])
  {
  }

  /** A match at `d` is counted, and counting resumes after it. */
  lemma CountHit(s: string, p: string, d: nat)
    requires |p| > 0 && d <= |s| && OccursAt(p, s, d)
    ensures Count(s[d..], p) == 1 + Count(s[d + |p|..], p)
  {
    var t := s[d..];
    assert t[..|p|] == s[d..d + |p|];
    assert t[|p|..] == s[d + |p|..];
  }

  /** Without a match at `d`, counting resumes one character later. */
  lemma CountMiss(s: string, p: string, d: nat)
    requires |p| > 0 && d <= |s| && |s| - d >= |p| && !OccursAt(p, s, d)
    ensures Count(s[d..], p) == Count(s[d + 1..], p)
  {
    var t := s[d..];
    assert t[..|p|] == s[d..d + |p|];
    assert t[1..] == s[d + 1..];
  }

  lemma PrependOrdered(p: string, s: string, d: nat, ys: seq<nat>)
    requires OccursAt(p, s, d)
    requires forall k :: 0 <= k < |ys| ==> d + |p| <= ys[k] && OccursAt(p, s, ys[k])
    requires forall k :: 0 <= k < |ys| - 1 ==> ys[k] + |p| <= ys[k + 1]
    ensures forall k :: 0 <= k < |ys| + 1 ==> d <= ([d] + ys)[k] && OccursAt(p, s, ([d] + ys)[k])
    ensures forall k :: 0 <= k < |ys| ==> ([d] + ys)[k] + |p| <= ([d] + ys)[k + 1]
  {
    var xs := [d] + ys;
    forall k | 0 <= k < |ys| ensures xs[k] + |p| <= xs[k + 1] {
      assert xs[k + 1] == ys[k];
      if k > 0 {
        assert xs[k] == ys[k - 1];
      }
    }
  }

  lemma PrependCovers(p: string, s: string, d: nat, ys: seq<nat>)
    requires forall i :: d + |p| <= i && OccursAt(p, s, i) ==> Covered(ys, |p|, i)
    ensures forall i :: d <= i && OccursAt(p, s, i) ==> Covered([d] + ys, |p|, i)
  {
    var xs := [d] + ys;
    forall i | d <= i && OccursAt(p, s, i) ensures Covered(xs, |p|, i) {
      if i < d + |p| {
        assert xs[0] <= i < xs[0] + |p|;
      } else {
        var k :| 0 <= k < |ys| && ys[k] <= i < ys[k] + |p|;
        assert xs[k + 1] == ys[k];
      }
    }
  }

  /** Prepending a match at `d` to the matches found from its end on gives
      the matches found from `d` on. */
  lemma PrependMatch(p: string, s: string, d: nat, ys: seq<nat>)
    requires OccursAt(p, s, d)
    requires MatchesFrom(p, s, d + |p|, ys)
    ensures MatchesFrom(p, s, d, [d] + ys)
  {
    PrependOrdered(p, s, d, ys);
    PrependCovers(p, s, d, ys);
  }

  /** Without an occurrence at `d`, the matches from `d + 1` on are the
      matches from `d` on. */
  lemma SkipMiss(p: string, s: string, d: nat, xs: seq<nat>)
    requires !OccursAt(p, s, d)
    requires MatchesFrom(p, s, d + 1, xs)
    ensures MatchesFrom(p, s, d, xs)
  {
  }

  /** The matches counted in the suffix of `s` from `d`, as positions in `s`. */
  lemma {:induction false} CountMatchesFrom(s: string, p: string, d: nat) returns (xs: seq<nat>)
    requires |p| > 0 && d <= |s|
    ensures |xs| == Count(s[d..], p)
    ensures MatchesFrom(p, s, d, xs)
    decreases |s| - d
  {
    if |s| - d < |p| {
      xs := [];
      CountShort(s, p, d);
    } else if OccursAt(p, s, d) {
      CountHit(s, p, d);
      var ys := CountMatchesFrom(s, p, d + |p|);
      xs := [d] + ys;
      PrependMatch(p, s, d, ys);
    } else {
      CountMiss(s, p, d);
      xs := CountMatchesFrom(s, p, d + 1);
      SkipMiss(p, s, d, xs);
    }
  }

  /** The matches `s.count(p)` counts, for a non-empty `p`: exactly
      `Count(s, p)` of them, and they are the leftmost non-overlapping ones. */
  lemma CountMatches(s: string, p: string) returns (xs: seq<nat>)
    requires |p| > 0
    ensures |xs| == Count(s, p)
    ensures LeftmostMatches(p, s, xs)
  {
    assert s[0..] == s;
    xs := CountMatchesFrom(s, p, 0);
  }

  /** A non-empty phrase is counted at least once exactly when it occurs. */
  lemma {:induction false} CountPositiveIffOccurs(s: string, p: string)
    requires |p| > 0
    ensures Count(s, p) > 0 <==> Occurs(p, s)
    decreases |s|
  {
    if |s| < |p| {
      assert forall i :: !OccursAt(p, s, i);
    } else if s[..|p|] == p {
      assert OccursAt(p, s, 0);
    } else {
      CountPositiveIffOccurs(s[1..], p);
      if Occurs(p, s[1..]) {
        var i :| OccursAt(p, s[1..], i);
        assert i + 1 + |p| <= |s|;
        var u, w := s[1..][i..i + |p|], s[i + 1..i + 1 + |p|];
        assert forall k :: 0 <= k < |p| ==> u[k] == w[k];
        assert u == w;
        assert OccursAt(p, s, i + 1);
      }
      if Occurs(p, s) {
        var i :| OccursAt(p, s, i);
        assert i != 0;
        assert s[1..][i - 1..i - 1 + |p|] == s[i..i + |p|];
        assert OccursAt(p, s[1..], i - 1);
      }
    }
  }

  /** When `p` cannot contain the joining character, counting in `a + [c] + b`
      counts in `a` and in `b` separately: no match straddles the joint. */
  lemma {:induction false} CountAcrossSeparator(a: string, c: char, b: string, p: string)
    requires |p| > 0 && c !in p
    ensures Count(a + [c] + b, p) == Count(a, p) + Count(b, p)
    decreases |a|
  {
    var s := a + [c] + b;
    if |a| == 0 {
      assert s == [c] + b;
      if |s| >= |p| {
        assert s[..|p|][0] == c;
        assert s[..|p|] != p;
        assert s[1..] == b;
      }
    } else if |a| < |p| {
      // a is too short to hold p, and a match at 0 in s would need c inside p
      if |s| >= |p| {
        assert s[..|p|][|a|] == c;
        assert s[..|p|] != p;
      }
      assert s[1..] == a[1..] + [c] + b;
      CountAcrossSeparator(a[1..], c, b, p);
      assert Count(a[1..], p) == 0;
    } else {
      assert s[..|p|] == a[..|p|];
      if a[..|p|] == p {
        assert s[|p|..] == a[|p|..] + [c] + b;
        CountAcrossSeparator(a[|p|..], c, b, p);
      } else {
        assert s[1..] == a[1..] + [c] + b;
        CountAcrossSeparator(a[1..], c, b, p);
      }
    }
  }
}
