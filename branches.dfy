/** Remote-branch selection (index.js:60-68): the output of `git branch -r`
    is cut into lines, the lines naming a numbered exercise branch
    `origin/tp<digits>` are kept, the `tp<digits>` part of each is taken,
    and the branches given on the command line are appended. */
module Branches {
  import opened Wrappers
  import opened Strings

  /** `\s` of a JavaScript regular expression: the WhiteSpace and
      LineTerminator characters of ECMAScript. */
  predicate IsWs(c: char)
  {
    || c == '\t' || c == '\n' || c == '\U{000B}' || c == '\U{000C}' || c == '\r'
    || c == ' ' || c == '\U{00A0}' || c == '\U{1680}'
    || ('\U{2000}' <= c <= '\U{200A}')
    || c == '\U{2028}' || c == '\U{2029}' || c == '\U{202F}' || c == '\U{205F}'
    || c == '\U{3000}' || c == '\U{FEFF}'
  }

  /** Every character `\s` matches lies in the Basic Multilingual Plane, so
      it is one UTF-16 code unit, and none of them is a digit. */
  lemma WsInBasicPlane(c: char)
    requires IsWs(c)
    ensures c as int < 0x1_0000 && !IsDigit(c)
  {
  }

  /** `\d`: the ASCII digits only. */
  predicate IsDigit(c: char)
  {
    '0' <= c <= '9'
  }

  predicate AllWs(s: string)
  {
    forall i :: 0 <= i < |s| ==> IsWs(s[i])
  }

  predicate AllDigits(s: string)
  {
    forall i :: 0 <= i < |s| ==> IsDigit(s[i])
  }

  /** The name of an exercise branch: `tp`, then one or more digits. */
  predicate IsTpName(name: string)
  {
    |name| > 2 && name[..2] == "tp" && AllDigits(name[2..])
  }

  const RemotePrefix := "origin/"
  const TpLinePrefix := "origin/tp"

  /** What is left of `s` once the `\s*` at its head has been consumed. */
  function SkipWs(s: string): (rest: string)
    ensures |rest| <= |s| && rest == s[|s| - |rest|..]
    ensures AllWs(s[..|s| - |rest|])
    ensures rest == [] || !IsWs(rest[0])
  {
    if s != [] && IsWs(s[0]) then SkipWs(s[1..]) else s
  }

  /** The whitespace at the head of `s`. */
  function LeadingWs(s: string): (w: string)
    ensures AllWs(w)
    ensures s == w + SkipWs(s)
  {
    s[..|s| - |SkipWs(s)|]
  }

  /** `/^\s*origin\/tp\d+$/.test(line)` (index.js:63). Without the `m` flag,
      `$` only matches at the very end of the line. A kept line is longer
      than `origin/tp`. */
  predicate MatchesTpLine(line: string)
    ensures MatchesTpLine(line) ==> |line| > |TpLinePrefix|
  {
    var rest := SkipWs(line);
    |rest| > |TpLinePrefix| && rest[..|TpLinePrefix|] == TpLinePrefix
    && AllDigits(rest[|TpLinePrefix|..])
  }

  /** The grammar of a kept line, stated directly: whitespace, the literal
      `origin/tp`, at least one digit, and nothing else. */
  ghost predicate IsTpLine(line: string)
  {
    exists w, digits :: AllWs(w) && AllDigits(digits) && |digits| > 0
                        && line == w + TpLinePrefix + digits
  }

  /** Consuming whitespace stops at the first character that is not. */
  lemma {:induction false} SkipWsOver(w: string, t: string)
    requires AllWs(w)
    requires t == [] || !IsWs(t[0])
    ensures SkipWs(w + t) == t
  {
    if w != [] {
      assert (w + t)[0] == w[0] && (w + t)[1..] == w[1..] + t;
      SkipWsOver(w[1..], t);
    }
  }

  /** The line filter accepts exactly the lines of the stated grammar. */
  lemma MatchesTpLineIff(line: string)
    ensures MatchesTpLine(line) <==> IsTpLine(line)
  {
    if MatchesTpLine(line) {
      MatchedLineIsTpLine(line);
    }
    if IsTpLine(line) {
      var w, digits :| AllWs(w) && AllDigits(digits) && |digits| > 0
                       && line == w + TpLinePrefix + digits;
      TpLineIsMatched(w, digits);
    }
  }

  lemma MatchedLineIsTpLine(line: string)
    requires MatchesTpLine(line)
    ensures IsTpLine(line)
  {
    var w, rest := LeadingWs(line), SkipWs(line);
    var digits := rest[|TpLinePrefix|..];
    assert rest == TpLinePrefix + digits;
    Reassociate(w, TpLinePrefix, digits);
    assert AllWs(w) && AllDigits(digits) && |digits| > 0 && line == w + TpLinePrefix + digits;
  }

  lemma Reassociate(x: string, y: string, z: string)
    ensures x + (y + z) == x + y + z
  {
  }

  lemma TpLineIsMatched(w: string, digits: string)
    requires AllWs(w) && AllDigits(digits) && |digits| > 0
    ensures MatchesTpLine(w + TpLinePrefix + digits)
  {
    var rest := TpLinePrefix + digits;
    assert !IsWs(rest[0]);
    SkipWsOver(w, rest);
    assert w + TpLinePrefix + digits == w + rest;
    assert rest[..|TpLinePrefix|] == TpLinePrefix;
    assert rest[|TpLinePrefix|..] == digits;
  }

  /** The two regular expressions of index.js:63 and index.js:66 agree on
      what follows the leading whitespace: `origin/tp` then digits is
      `origin/` then a `tp<digits>` name. */
  lemma TpLineShapes(rest: string)
    ensures (|rest| > |TpLinePrefix| && rest[..|TpLinePrefix|] == TpLinePrefix
             && AllDigits(rest[|TpLinePrefix|..]))
        <==> (|rest| >= |RemotePrefix| && rest[..|RemotePrefix|] == RemotePrefix
              && IsTpName(rest[|RemotePrefix|..]))
  {
    if |rest| > |TpLinePrefix| {
      assert TpLinePrefix == RemotePrefix + "tp";
      var name := rest[|RemotePrefix|..];
      assert rest[..|TpLinePrefix|] == rest[..|RemotePrefix|] + name[..2];
      assert name[2..] == rest[|TpLinePrefix|..];
    }
  }

  /** `/^\s*origin\/(tp\d+)$/.exec(line)` (index.js:66), reduced to its
      capture group; None stands for the `null` that `exec` returns when the
      line does not match. This second expression is checked on its own
      terms: it yields a capture exactly on the lines the filter keeps, so
      `exec(...)[1]` never fails on a kept line, and the capture is a branch
      name with the `origin/` and the whitespace cut off. */
  function ExecTp(line: string): (m: Option<string>)
    ensures m.Some? <==> MatchesTpLine(line)
    ensures m.Some? ==> IsTpName(m.value) && line == LeadingWs(line) + RemotePrefix + m.value
  {
    var rest := SkipWs(line);
    TpLineShapes(rest);
    if |rest| >= |RemotePrefix| && rest[..|RemotePrefix|] == RemotePrefix
       && IsTpName(rest[|RemotePrefix|..])
    then
      var name := rest[|RemotePrefix|..];
      assert rest == RemotePrefix + name;
      Reassociate(LeadingWs(line), RemotePrefix, name);
      Some(name)
    else
      None
  }

  /** A listing line `<whitespace>origin/<entry>` is kept exactly when the
      entry is an exercise branch name, and then the entry is what is
      extracted. */
  lemma ExecTpOfListingLine(w: string, entry: string)
    requires AllWs(w)
    ensures ExecTp(w + RemotePrefix + entry) == if IsTpName(entry) then Some(entry) else None
  {
    SkipWsOver(w, RemotePrefix + entry);
    assert w + RemotePrefix + entry == w + (RemotePrefix + entry);
    assert (RemotePrefix + entry)[..|RemotePrefix|] == RemotePrefix;
    assert (RemotePrefix + entry)[|RemotePrefix|..] == entry;
  }

  /** `.map(line => exec(line)[1])` over kept lines (index.js:65-67). */
  function ExtractNames(kept: seq<string>): (names: seq<string>)
    requires forall i :: 0 <= i < |kept| ==> MatchesTpLine(kept[i])
    ensures |names| == |kept|
    ensures forall i :: 0 <= i < |kept| ==> ExecTp(kept[i]) == Some(names[i]) && IsTpName(names[i])
  {
    if kept == [] then []
    else
      var first := ExecTp(kept[0]);
      var tail := ExtractNames(kept[1..]);
      ExtractNamesCons(kept, first.value, tail);
      [first.value] + tail
  }

  lemma ExtractNamesCons(kept: seq<string>, name: string, tail: seq<string>)
    requires |kept| >= 1 && ExecTp(kept[0]) == Some(name)
    requires |tail| == |kept| - 1
    requires forall i :: 0 <= i < |tail| ==> ExecTp(kept[1..][i]) == Some(tail[i]) && IsTpName(tail[i])
    ensures forall i :: 0 <= i < |kept| ==> ExecTp(kept[i]) == Some(([name] + tail)[i]) && IsTpName(([name] + tail)[i])
  {
    forall i | 1 <= i < |kept|
      ensures ExecTp(kept[i]) == Some(([name] + tail)[i]) && IsTpName(([name] + tail)[i])
    {
      assert kept[i] == kept[1..][i - 1];
      assert ([name] + tail)[i] == tail[i - 1];
    }
  }

  lemma ExtractNamesAppend(a: seq<string>, b: seq<string>)
    requires forall i :: 0 <= i < |a| ==> MatchesTpLine(a[i])
    requires forall i :: 0 <= i < |b| ==> MatchesTpLine(b[i])
    ensures ExtractNames(a + b) == ExtractNames(a) + ExtractNames(b)
  {
    var l, na, nb := ExtractNames(a + b), ExtractNames(a), ExtractNames(b);
    forall i | 0 <= i < |l|
      ensures l[i] == (na + nb)[i]
    {
      if i < |a| {
        assert (a + b)[i] == a[i];
        assert ExecTp(a[i]) == Some(na[i]);
      } else {
        assert (a + b)[i] == b[i - |a|];
        assert ExecTp(b[i - |a|]) == Some(nb[i - |a|]);
      }
    }
  }

  /** `branchesOut.split('\n').filter(...)` (index.js:61-64): exactly the
      lines of the output that the filter accepts, none longer than a line. */
  function TpLines(stdout: string): (kept: seq<string>)
    ensures forall i :: 0 <= i < |kept| ==> MatchesTpLine(kept[i]) && '\n' !in kept[i]
    ensures forall line :: line in kept <==> line in Split(stdout, '\n') && MatchesTpLine(line)
  {
    Filter(Split(stdout, '\n'), MatchesTpLine)
  }

  /** The branches found by the naming convention, in listing order: one
      `tp<digits>` name per kept line, that line's capture. */
  function DiscoveredBranches(stdout: string): (names: seq<string>)
    ensures |names| == |TpLines(stdout)|
    ensures forall i :: 0 <= i < |names| ==>
              ExecTp(TpLines(stdout)[i]) == Some(names[i]) && IsTpName(names[i])
  {
    ExtractNames(TpLines(stdout))
  }

  /** The branches to check out and copy, in order (index.js:61-68): one
      per kept line, in listing order, followed by every additional branch
      in flag order. Nothing is de-duplicated and the additional names are
      not checked against the naming convention. */
  function SelectBranches(stdout: string, additional: seq<string>): (branches: seq<string>)
    ensures |branches| == |TpLines(stdout)| + |additional|
    ensures forall i :: 0 <= i < |TpLines(stdout)| ==>
              ExecTp(TpLines(stdout)[i]) == Some(branches[i]) && IsTpName(branches[i])
    ensures branches[|TpLines(stdout)|..] == additional
  {
    DiscoveredBranches(stdout) + additional
  }

  /** Discovery treats the lines of the listing independently and in order. */
  lemma DiscoveredAcrossNewline(a: string, b: string)
    ensures DiscoveredBranches(a + "\n" + b) == DiscoveredBranches(a) + DiscoveredBranches(b)
  {
    SplitAround(a, '\n', b);
    FilterAppend(Split(a, '\n'), Split(b, '\n'), MatchesTpLine);
    ExtractNamesAppend(TpLines(a), TpLines(b));
  }

  /** One line on its own: kept and extracted, or dropped. */
  lemma DiscoveredOneLine(line: string)
    requires '\n' !in line
    ensures DiscoveredBranches(line) == if MatchesTpLine(line) then [ExecTp(line).value] else []
  {
    SplitWithoutSeparator(line, '\n');
    FilterSingle(line, MatchesTpLine);
  }

  /** The text `git branch -r` prints for remote entries: each on its own
      line, indented by two spaces, after `origin/`. */
  function Listing(entries: seq<string>): string
  {
    if entries == [] then "" else "  " + RemotePrefix + entries[0] + "\n" + Listing(entries[1..])
  }

  /** Reading a listing back: the discovered branches are exactly the
      entries that are exercise branch names, in listing order. */
  lemma {:induction false} DiscoveredFromListing(entries: seq<string>)
    requires forall i :: 0 <= i < |entries| ==> '\n' !in entries[i]
    ensures DiscoveredBranches(Listing(entries)) == Filter(entries, IsTpName)
  {
    if entries == [] {
      assert Split("", '\n') == [""];
      assert !MatchesTpLine("");
    } else {
      var line := "  " + RemotePrefix + entries[0];
      var later := Listing(entries[1..]);
      assert Listing(entries) == line + "\n" + later;
      DiscoveredAcrossNewline(line, later);
      ListingLine(entries[0]);
      DiscoveredFromListing(entries[1..]);
      assert Filter(entries, IsTpName)
          == (if IsTpName(entries[0]) then [entries[0]] else []) + Filter(entries[1..], IsTpName);
    }
  }

  /** One line of a listing, read back on its own. */
  lemma ListingLine(entry: string)
    requires '\n' !in entry
    ensures DiscoveredBranches("  " + RemotePrefix + entry)
         == if IsTpName(entry) then [entry] else []
  {
    var line := "  " + RemotePrefix + entry;
    assert AllWs("  ");
    ExecTpOfListingLine("  ", entry);
    assert '\n' !in line;
    DiscoveredOneLine(line);
  }

  /** No de-duplication: every name is selected as many times as it is
      discovered plus as many times as it is given as an additional branch
      (so a name in both parts is checked out and copied twice). */
  lemma SelectionMultiplicity(stdout: string, additional: seq<string>)
    ensures multiset(SelectBranches(stdout, additional))
         == multiset(DiscoveredBranches(stdout)) + multiset(additional)
  {
  }
}
