/** The JavaScript array and string operations the program chains together:
    `split` on a one-character separator, `join`, `filter`, and the
    concatenation of a list of strings. */
module Strings {

  /** The position of the first `c` in `s`, or `|s|` when there is none. */
  function IndexOf(s: string, c: char): (k: nat)
    ensures k <= |s|
    ensures c !in s[..k]
    ensures k < |s| ==> s[k] == c
  {
    if s == [] || s[0] == c then 0
    else
      var k := 1 + IndexOf(s[1..], c);
      assert s[..k] == [s[0]] + s[1..][..k - 1];
      k
  }

  /** The first occurrence is unique: any position with no `c` before it
      and `c` at it (or the end) is IndexOf. */
  lemma IndexOfUnique(s: string, c: char, k: nat)
    requires k <= |s| && c !in s[..k] && (k < |s| ==> s[k] == c)
    ensures IndexOf(s, c) == k
  {
  }

  /** `s.split(sep)` for a separator of one character: the runs of `s`
      between occurrences of `sep`, in order. As in JavaScript, an empty `s`
      gives one empty part and a trailing separator gives a trailing empty
      part. */
  function Split(s: string, sep: char): (parts: seq<string>)
    ensures |parts| >= 1
    ensures forall i :: 0 <= i < |parts| ==> sep !in parts[i]
    decreases |s|
  {
    var k := IndexOf(s, sep);
    if k == |s| then [s] else [s[..k]] + Split(s[k + 1..], sep)
  }

  /** Joining the parts of a split with the separator gives back the
      original string; with SplitJoin, `split` and `join` are inverse. */
  lemma {:induction false} JoinSplit(s: string, sep: char)
    ensures Join(Split(s, sep), sep) == s
    decreases |s|
  {
    var k := IndexOf(s, sep);
    if k == |s| {
      assert s[..k] == s;
      SplitWithoutSeparator(s, sep);
    } else {
      var p, q := s[..k], s[k + 1..];
      assert s == p + [sep] + q;
      JoinSplit(q, sep);
      JoinSplitStep(p, sep, q);
    }
  }

  lemma JoinSplitStep(p: string, sep: char, q: string)
    requires sep !in p
    requires Join(Split(q, sep), sep) == q
    ensures Join(Split(p + [sep] + q, sep), sep) == p + [sep] + q
  {
    SplitPrefixed(p, sep, q);
    JoinPrepend(p, Split(q, sep), sep);
  }

  lemma JoinPrepend(x: string, rest: seq<string>, sep: char)
    requires |rest| >= 1
    ensures Join([x] + rest, sep) == x + [sep] + Join(rest, sep)
  {
    assert ([x] + rest)[1..] == rest;
  }

  /** `parts.join(sep)`. */
  function Join(parts: seq<string>, sep: char): string
  {
    if parts == [] then ""
    else if |parts| == 1 then parts[0]
    else parts[0] + [sep] + Join(parts[1..], sep)
  }

  /** `parts.join('')`. */
  function Concat(parts: seq<string>): string
  {
    if parts == [] then "" else parts[0] + Concat(parts[1..])
  }

  /** `s` with every occurrence of `c` taken out. */
  function Without(s: string, c: char): (r: string)
    ensures c !in r
  {
    if s == [] then ""
    else (if s[0] == c then "" else [s[0]]) + Without(s[1..], c)
  }

  /** `s.filter(keep)`: the elements of `s` that `keep` accepts, in order. */
  function Filter(s: seq<string>, keep: string -> bool): (r: seq<string>)
    ensures |r| <= |s|
    ensures forall i :: 0 <= i < |r| ==> keep(r[i])
    ensures forall x :: x in r <==> x in s && keep(x)
  {
    if s == [] then []
    else (if keep(s[0]) then [s[0]] else []) + Filter(s[1..], keep)
  }

  /** `name !== ''`. */
  predicate NonEmpty(s: string)
  {
    s != ""
  }

  /** Split characterised by where its first separator is, without IndexOf. */
  lemma SplitAt(s: string, sep: char, k: nat)
    requires k <= |s| && sep !in s[..k] && (k < |s| ==> s[k] == sep)
    ensures k == |s| ==> Split(s, sep) == [s]
    ensures k < |s| ==> Split(s, sep) == [s[..k]] + Split(s[k + 1..], sep)
  {
    IndexOfUnique(s, sep, k);
  }

  /** A string without the separator splits into itself alone. */
  lemma SplitWithoutSeparator(s: string, sep: char)
    requires sep !in s
    ensures Split(s, sep) == [s]
  {
    assert s[..|s|] == s;
    SplitAt(s, sep, |s|);
  }

  /** A separator-free run followed by the separator is the first part. */
  lemma SplitPrefixed(a: string, sep: char, b: string)
    requires sep !in a
    ensures Split(a + [sep] + b, sep) == [a] + Split(b, sep)
  {
    var s := a + [sep] + b;
    assert s[..|a|] == a;
    SplitAt(s, sep, |a|);
    assert s[|a| + 1..] == b;
  }

  /** Splitting distributes over one occurrence of the separator. */
  lemma {:induction false} SplitAround(a: string, sep: char, b: string)
    ensures Split(a + [sep] + b, sep) == Split(a, sep) + Split(b, sep)
    decreases |a|
  {
    var k := IndexOf(a, sep);
    if k == |a| {
      assert a[..k] == a;
      SplitWithoutSeparator(a, sep);
      SplitPrefixed(a, sep, b);
    } else {
      var p, q := a[..k], a[k + 1..];
      assert a == p + [sep] + q;
      SplitAround(q, sep, b);
      SplitAroundStep(p, q, sep, b);
    }
  }

  lemma SplitAroundStep(p: string, q: string, sep: char, b: string)
    requires sep !in p
    requires Split(q + [sep] + b, sep) == Split(q, sep) + Split(b, sep)
    ensures Split(p + [sep] + q + [sep] + b, sep) == Split(p + [sep] + q, sep) + Split(b, sep)
  {
    Regroup(p, sep, q, b);
    SplitPrefixed(p, sep, q);
    SplitPrefixed(p, sep, q + [sep] + b);
    ConsAssoc(p, Split(q, sep), Split(b, sep));
  }

  lemma Regroup(p: string, sep: char, q: string, b: string)
    ensures p + [sep] + q + [sep] + b == p + [sep] + (q + [sep] + b)
  {
  }

  lemma ConsAssoc(x: string, u: seq<string>, v: seq<string>)
    ensures [x] + (u + v) == ([x] + u) + v
  {
  }

  /** `split` undoes `join` when no part holds the separator: with
      JoinSplit, the two are inverse to each other. */
  lemma {:induction false} SplitJoin(parts: seq<string>, sep: char)
    requires |parts| >= 1
    requires forall i :: 0 <= i < |parts| ==> sep !in parts[i]
    ensures Split(Join(parts, sep), sep) == parts
  {
    var first := parts[0];
    if |parts| == 1 {
      SplitWithoutSeparator(first, sep);
    } else {
      var rest := parts[1..];
      SplitJoin(rest, sep);
      JoinCons(parts, sep);
      SplitPrefixed(first, sep, Join(rest, sep));
      assert parts == [first] + rest;
    }
  }

  lemma JoinCons(parts: seq<string>, sep: char)
    requires |parts| >= 2
    ensures Join(parts, sep) == parts[0] + [sep] + Join(parts[1..], sep)
  {
  }

  /** Gluing the parts of a split back together without separators is the
      string with the separators removed. */
  lemma {:induction false} ConcatSplit(s: string, sep: char)
    ensures Concat(Split(s, sep)) == Without(s, sep)
    decreases |s|
  {
    var k := IndexOf(s, sep);
    if k == |s| {
      assert s[..k] == s;
      SplitWithoutSeparator(s, sep);
      WithoutAbsent(s, sep);
      ConcatCons(s, []);
    } else {
      var p, q := s[..k], s[k + 1..];
      assert s == p + [sep] + q;
      ConcatSplit(q, sep);
      ConcatSplitStep(p, sep, q);
    }
  }

  lemma ConcatSplitStep(p: string, sep: char, q: string)
    requires sep !in p
    requires Concat(Split(q, sep)) == Without(q, sep)
    ensures Concat(Split(p + [sep] + q, sep)) == Without(p + [sep] + q, sep)
  {
    SplitPrefixed(p, sep, q);
    ConcatCons(p, Split(q, sep));
    WithoutSeparated(p, sep, q);
  }

  lemma ConcatCons(x: string, rest: seq<string>)
    ensures Concat([x] + rest) == x + Concat(rest)
  {
    assert ([x] + rest)[1..] == rest;
  }

  lemma WithoutSeparated(p: string, c: char, q: string)
    requires c !in p
    ensures Without(p + [c] + q, c) == p + Without(q, c)
  {
    WithoutAbsent(p, c);
    RegroupSeparated(p, c, q);
    WithoutAppend(p, [c] + q, c);
    WithoutDropsHead(c, q);
  }

  lemma RegroupSeparated(p: string, c: char, q: string)
    ensures p + [c] + q == p + ([c] + q)
  {
  }

  lemma WithoutDropsHead(c: char, q: string)
    ensures Without([c] + q, c) == Without(q, c)
  {
    assert ([c] + q)[1..] == q;
  }

  lemma {:induction false} WithoutAbsent(s: string, c: char)
    requires c !in s
    ensures Without(s, c) == s
  {
    if s != [] {
      assert s == [s[0]] + s[1..];
      WithoutAbsent(s[1..], c);
    }
  }

  lemma {:induction false} WithoutAppend(x: string, y: string, c: char)
    ensures Without(x + y, c) == Without(x, c) + Without(y, c)
  {
    if x == [] {
      assert x + y == y;
    } else {
      assert (x + y)[0] == x[0] && (x + y)[1..] == x[1..] + y;
      WithoutAppend(x[1..], y, c);
    }
  }

  /** Dropping empty strings does not change the concatenation. */
  lemma {:induction false} ConcatNonEmpty(parts: seq<string>)
    ensures Concat(Filter(parts, NonEmpty)) == Concat(parts)
  {
    if parts != [] {
      ConcatNonEmpty(parts[1..]);
      var kept := Filter(parts[1..], NonEmpty);
      if parts[0] == "" {
        assert Filter(parts, NonEmpty) == kept;
      } else {
        assert Filter(parts, NonEmpty) == [parts[0]] + kept;
        assert ([parts[0]] + kept)[1..] == kept;
      }
    }
  }

  /** `filter` distributes over concatenation: with FilterSingle, this pins
      Filter down as "keep, in order, exactly the accepted elements". */
  lemma {:induction false} FilterAppend(a: seq<string>, b: seq<string>, keep: string -> bool)
    ensures Filter(a + b, keep) == Filter(a, keep) + Filter(b, keep)
  {
    if a == [] {
      assert a + b == b;
    } else {
      assert (a + b)[0] == a[0];
      assert (a + b)[1..] == a[1..] + b;
      FilterAppend(a[1..], b, keep);
    }
  }

  lemma FilterSingle(x: string, keep: string -> bool)
    ensures Filter([x], keep) == if keep(x) then [x] else []
  {
    assert [x][1..] == [];
  }

  /** A filter that accepts every element keeps the sequence as it is. */
  lemma {:induction false} FilterKeepsAll(s: seq<string>, keep: string -> bool)
    requires forall i :: 0 <= i < |s| ==> keep(s[i])
    ensures Filter(s, keep) == s
  {
    if s != [] {
      FilterKeepsAll(s[1..], keep);
      assert s == [s[0]] + s[1..];
    }
  }
}
