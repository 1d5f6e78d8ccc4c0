/** Worked cases of branch selection and flag parsing, derived from the
    general lemmas. */
module Scenarios {
  import opened Wrappers
  import opened Strings
  import opened Branches
  import opened Flags

  /** The symbolic-reference line git prints for the remote's default
      branch is not an exercise branch. */
  lemma RejectsHeadPointer()
    ensures !MatchesTpLine("  origin/HEAD -> origin/master")
  {
    var entry := "HEAD -> origin/master";
    assert AllWs("  ");
    assert "  origin/HEAD -> origin/master" == "  " + RemotePrefix + entry;
    ExecTpOfListingLine("  ", entry);
    assert entry[..2][0] == 'H';
  }

  lemma RejectsOtherBranch()
    ensures !MatchesTpLine("  origin/feature-x")
  {
    var entry := "feature-x";
    assert AllWs("  ");
    assert "  origin/feature-x" == "  " + RemotePrefix + entry;
    ExecTpOfListingLine("  ", entry);
    assert entry[..2][0] == 'f';
  }

  /** `tp` needs at least one digit after it. */
  lemma RejectsTpWithoutDigits()
    ensures !MatchesTpLine("origin/tp")
  {
    assert AllWs("");
    assert "origin/tp" == "" + RemotePrefix + "tp";
    ExecTpOfListingLine("", "tp");
  }

  /** Nothing may follow the digits: a trailing space, a carriage return
      or any other character that is not a digit rejects the line. */
  lemma RejectsTrailingCharacter(c: char)
    requires !IsDigit(c)
    ensures !MatchesTpLine("  origin/tp12" + [c])
  {
    var entry := "tp12" + [c];
    assert AllWs("  ");
    assert "  origin/tp12" + [c] == "  " + RemotePrefix + entry;
    ExecTpOfListingLine("  ", entry);
    assert entry[2..][2] == c;
  }

  /** A line of any indentation naming `origin/tp` and digits is kept, and
      the name is extracted without the indentation and the remote's prefix
      (for instance `  origin/tp12` gives `tp12`). */
  lemma AcceptsTpLine(w: string, digits: string)
    requires AllWs(w) && |digits| > 0 && AllDigits(digits)
    ensures ExecTp(w + TpLinePrefix + digits) == Some("tp" + digits)
  {
    var entry := "tp" + digits;
    assert entry[..2] == "tp" && entry[2..] == digits;
    assert w + TpLinePrefix + digits == w + RemotePrefix + entry;
    ExecTpOfListingLine(w, entry);
  }

  /** Remote branches origin/HEAD, origin/tp1, origin/tp2 and
      origin/feature-x select tp1 and tp2, in that order, followed by the
      additional branches; with `-b custom1,custom2` (ParsedFlagExample)
      the selection is tp1, tp2, custom1, custom2. */
  lemma SelectionExample(additional: seq<string>)
    ensures SelectBranches(Listing(["HEAD -> origin/master", "tp1", "tp2", "feature-x"]), additional)
         == ["tp1", "tp2"] + additional
  {
    ExampleListing();
  }

  lemma ExampleListing()
    ensures DiscoveredBranches(Listing(["HEAD -> origin/master", "tp1", "tp2", "feature-x"]))
         == ["tp1", "tp2"]
  {
    var entries := ["HEAD -> origin/master", "tp1", "tp2", "feature-x"];
    assert forall i :: 0 <= i < |entries| ==> '\n' !in entries[i] by {
      assert '\n' !in entries[0] && '\n' !in entries[1];
      assert '\n' !in entries[2] && '\n' !in entries[3];
    }
    DiscoveredFromListing(entries);
    ExampleEntries();
  }

  lemma ExampleEntries()
    ensures Filter(["HEAD -> origin/master", "tp1", "tp2", "feature-x"], IsTpName) == ["tp1", "tp2"]
  {
    var e0, e1, e2, e3 := "HEAD -> origin/master", "tp1", "tp2", "feature-x";
    assert e0[..2][0] == 'H' && e3[..2][0] == 'f';
    assert e1[..2] == "tp" && e1[2..] == "1";
    assert e2[..2] == "tp" && e2[2..] == "2";
    var entries := [e0, e1, e2, e3];
    assert entries[1..] == [e1, e2, e3] && [e1, e2, e3][1..] == [e2, e3];
    var last: seq<string> := [e3];
    assert [e2, e3][1..] == last && last[1..] == [];
  }

  lemma ParsedFlagExample()
    ensures ParseAdditional(Some("custom1,custom2"), None) == ["custom1", "custom2"]
  {
    var names := ["custom1", "custom2"];
    assert Join(names, ',') == "custom1,custom2" by {
      assert names[1..] == ["custom2"];
    }
    ParseJoined(names, None);
  }

  /** Empty segments of the flag value are dropped. */
  lemma EmptySegmentsDropped()
    ensures ParseAdditional(Some(",a,,b,"), None) == ["a", "b"]
  {
    SplitExample();
    FilterExample();
  }

  lemma SplitExample()
    ensures Split(",a,,b,", ',') == ["", "a", "", "b", ""]
  {
    var parts := ["", "a", "", "b", ""];
    JoinExample();
    assert forall i :: 0 <= i < |parts| ==> ',' !in parts[i];
    SplitJoin(parts, ',');
  }

  lemma FilterExample()
    ensures Filter(["", "a", "", "b", ""], NonEmpty) == ["a", "b"]
  {
    var parts := ["", "a", "", "b", ""];
    var p1, p2, p3, p4 := parts[1..], parts[2..], parts[3..], parts[4..];
    assert p1 == parts[1..] && p1[1..] == p2 && p2[1..] == p3 && p3[1..] == p4 && p4[1..] == [];
  }

  lemma JoinExample()
    ensures Join(["", "a", "", "b", ""], ',') == ",a,,b,"
  {
    var p4: seq<string> := [""];
    var p3 := ["b"] + p4;
    var p2 := [""] + p3;
    var p1 := ["a"] + p2;
    var parts := [""] + p1;
    assert parts[1..] == p1 && p1[1..] == p2 && p2[1..] == p3 && p3[1..] == p4;
    assert Join(p4, ',') == "";
    assert Join(p3, ',') == "b,";
    assert Join(p2, ',') == ",b,";
    assert Join(p1, ',') == "a,,b,";
  }

  /** An empty `-b` gives way to `--additional-branch`. */
  lemma EmptyShortFlagFallsThrough()
    ensures ParseAdditional(Some(""), Some("c")) == ["c"]
  {
    SplitWithoutSeparator("c", ',');
    FilterSingle("c", NonEmpty);
  }
}
