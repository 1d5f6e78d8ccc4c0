/** The `-b` / `--additional-branch` flag (index.js:28-30): a comma-separated
    list of extra branch names. */
module Flags {
  import opened Wrappers
  import opened Strings

  /** Whether a flag value passes JavaScript's `||`: an absent flag and an
      empty string are both falsy. */
  predicate Truthy(flag: Option<string>)
  {
    flag.Some? && flag.value != ""
  }

  /** `cli.flags.b || cli.flags.additionalBranch || ''`: the text of the
      first truthy flag, `-b` first, and the empty text when neither is. */
  function FlagValue(short: Option<string>, long: Option<string>): (value: string)
    ensures value != "" <==> Truthy(short) || Truthy(long)
    ensures value != "" ==> Some(value) == short || Some(value) == long
    ensures Truthy(short) ==> value == short.value
  {
    if Truthy(short) then short.value
    else if Truthy(long) then long.value
    else ""
  }

  /** `FlagValue(...).split(',').filter(name => name !== '')`: the names in
      flag order. No name is empty or holds a comma, and gluing them
      together gives back the flag text with its commas taken out; with
      neither flag set there are no names. */
  function ParseAdditional(short: Option<string>, long: Option<string>): (names: seq<string>)
    ensures forall i :: 0 <= i < |names| ==> names[i] != "" && ',' !in names[i]
    ensures Concat(names) == Without(FlagValue(short, long), ',')
    ensures !Truthy(short) && !Truthy(long) ==> names == []
  {
    var parts := Split(FlagValue(short, long), ',');
    ConcatSplit(FlagValue(short, long), ',');
    ConcatNonEmpty(parts);
    Filter(parts, NonEmpty)
  }

  /** `-b` takes precedence: when it has a non-empty value, the long flag is
      never looked at. */
  lemma ShortFlagWins(short: Option<string>, long: Option<string>)
    requires Truthy(short)
    ensures ParseAdditional(short, long) == ParseAdditional(short, None)
  {
  }

  /** An empty or absent `-b` falls through to `--additional-branch`. */
  lemma LongFlagWhenShortFalsy(short: Option<string>, long: Option<string>)
    requires !Truthy(short)
    ensures ParseAdditional(short, long) == ParseAdditional(long, None)
  {
  }

  /** Writing a list of names with commas between them and parsing it gives
      the list back, provided no name is empty or holds a comma. */
  lemma ParseJoined(names: seq<string>, long: Option<string>)
    requires |names| >= 1
    requires forall i :: 0 <= i < |names| ==> names[i] != "" && ',' !in names[i]
    ensures ParseAdditional(Some(Join(names, ',')), long) == names
  {
    assert |names| > 1 ==> Join(names, ',') == names[0] + [','] + Join(names[1..], ',');
    assert Truthy(Some(Join(names, ',')));
    SplitJoin(names, ',');
    FilterKeepsAll(names, NonEmpty);
  }
}
