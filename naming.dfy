/** The names the program derives from its command line (index.js:27-45):
    the default archive name, the clone URL, and the temporary directories. */
module Naming {
  import opened Wrappers
  import Flags

  /** `prefix + core + suffix` read backwards: the core, if `s` has that
      prefix and that suffix without them overlapping. */
  function Unwrap(prefix: string, s: string, suffix: string): (core: Option<string>)
    ensures core.Some? <==> |s| >= |prefix| + |suffix| && s[..|prefix|] == prefix
                            && s[|s| - |suffix|..] == suffix
    ensures core.Some? ==> prefix + core.value + suffix == s
  {
    if |s| >= |prefix| + |suffix| && s[..|prefix|] == prefix && s[|s| - |suffix|..] == suffix
    then
      var core := s[|prefix|..|s| - |suffix|];
      assert s == s[..|prefix|] + core + s[|s| - |suffix|..];
      Some(core)
    else None
  }

  lemma UnwrapWrapped(prefix: string, core: string, suffix: string)
    ensures Unwrap(prefix, prefix + core + suffix, suffix) == Some(core)
  {
    var s := prefix + core + suffix;
    assert s[..|prefix|] == prefix;
    assert s[|s| - |suffix|..] == suffix;
    assert s[|prefix|..|s| - |suffix|] == core;
  }

  const ArchiveSuffix := "-tps.zip"
  const UrlPrefix := "git@github.com:Zenika/formation-"
  const UrlSuffix := ".git"
  const CheckoutPrefix := "formation-"
  const ResultDirectoryName := "result"

  /** The archive written when no destination is given (index.js:32): the
      training name can be read back from it. */
  function DefaultDestination(trainingName: string): (file: string)
    ensures Unwrap("", file, ArchiveSuffix) == Some(trainingName)
  {
    UnwrapWrapped("", trainingName, ArchiveSuffix);
    assert "" + trainingName + ArchiveSuffix == trainingName + ArchiveSuffix;
    trainingName + ArchiveSuffix
  }

  /** The repository to clone (index.js:45), `formation-<name>` under the
      Zenika account on GitHub: the training name can be read back from it. */
  function CloneUrl(trainingName: string): (url: string)
    ensures Unwrap(UrlPrefix, url, UrlSuffix) == Some(trainingName)
  {
    UnwrapWrapped(UrlPrefix, trainingName, UrlSuffix);
    UrlPrefix + trainingName + UrlSuffix
  }

  /** The working clone's directory name (index.js:43): the training name
      can be read back from it. */
  function CheckoutName(trainingName: string): (dir: string)
    ensures Unwrap(CheckoutPrefix, dir, "") == Some(trainingName)
  {
    UnwrapWrapped(CheckoutPrefix, trainingName, "");
    assert CheckoutPrefix + trainingName + "" == CheckoutPrefix + trainingName;
    CheckoutPrefix + trainingName
  }

  /** The text after the last `/` of `s` (all of `s` when it has none):
      the longest suffix without a `/`. */
  function LastSegment(s: string): (segment: string)
    ensures '/' !in segment
    ensures |segment| <= |s| && s[|s| - |segment|..] == segment
    ensures |segment| < |s| ==> s[|s| - |segment| - 1] == '/'
  {
    if '/' !in s then s
    else
      var segment := LastSegment(s[1..]);
      assert s[1..][|s[1..]| - |segment|..] == s[|s| - |segment|..];
      segment
  }

  /** A segment with no `/` after a `/` is the last segment. */
  lemma LastSegmentAfterSlash(head: string, tail: string)
    requires '/' !in tail
    ensures LastSegment(head + ['/'] + tail) == tail
  {
    var s := head + ['/'] + tail;
    var segment := LastSegment(s);
    assert s[|s| - |tail| - 1] == '/';
    assert s[|s| - |tail|..] == tail;
    if |segment| != |tail| {
      assert false;
    }
  }

  /** For a training name without `/`, the last `/`-separated segment of
      the clone URL is the working clone's name followed by `.git`. */
  lemma CheckoutNameMatchesUrl(trainingName: string)
    requires '/' !in trainingName
    ensures LastSegment(CloneUrl(trainingName)) == CheckoutName(trainingName) + UrlSuffix
  {
    var tail := CheckoutName(trainingName) + UrlSuffix;
    assert CloneUrl(trainingName) == "git@github.com:Zenika" + ['/'] + tail;
    LastSegmentAfterSlash("git@github.com:Zenika", tail);
  }

  /** Different training names never share a clone URL, a working-clone
      name or a default archive name. */
  lemma NamesInjective(a: string, b: string)
    requires a != b
    ensures CloneUrl(a) != CloneUrl(b)
    ensures CheckoutName(a) != CheckoutName(b)
    ensures DefaultDestination(a) != DefaultDestination(b)
  {
    var ua, ub := CloneUrl(a), CloneUrl(b);
    assert Unwrap(UrlPrefix, ua, UrlSuffix) != Unwrap(UrlPrefix, ub, UrlSuffix);
    assert Unwrap(CheckoutPrefix, CheckoutName(a), "") != Unwrap(CheckoutPrefix, CheckoutName(b), "");
    assert Unwrap("", DefaultDestination(a), ArchiveSuffix) != Unwrap("", DefaultDestination(b), ArchiveSuffix);
  }

  /** What the program takes from its host: the current directory, the
      temporary directory (`os.tmpdir()`), the package name (`cli.pkg.name`),
      and `path.resolve(base, p)`, whose meaning is left open. */
  datatype Host = Host(cwd: string, tmpdir: string, packageName: string,
                       resolve: (string, string) -> string)

  /** The parsed command line: positional inputs and the two spellings of
      the additional-branch flag. */
  datatype Invocation = Invocation(input: seq<string>, short: Option<string>,
                                   long: Option<string>)

  datatype Config = Config(
    trainingName: string,
    additionalBranches: seq<string>,
    destinationFile: string,
    tmpDirectory: string,
    workDirectory: string,
    resultDirectory: string,
    gitUrl: string)

  datatype UsageError = MissingTrainingName

  /** The run's configuration (index.js:27-45). Without a training name the
      program prints its help and stops. The destination is the second
      input resolved against the current directory when there is one, and
      otherwise the default archive name, left relative. The working clone
      and the result tree both sit in one temporary directory named after
      the package. */
  function Configure(inv: Invocation, host: Host): (r: Result<Config, UsageError>)
    ensures r.Err? <==> |inv.input| == 0
    ensures r.Ok? ==> r.value.trainingName == inv.input[0]
    ensures r.Ok? ==> r.value.additionalBranches == Flags.ParseAdditional(inv.short, inv.long)
    ensures r.Ok? && |inv.input| == 1 ==>
              Unwrap("", r.value.destinationFile, ArchiveSuffix) == Some(inv.input[0])
    ensures r.Ok? && |inv.input| > 1 ==>
              r.value.destinationFile == host.resolve(host.cwd, inv.input[1])
    ensures r.Ok? ==> Unwrap(UrlPrefix, r.value.gitUrl, UrlSuffix) == Some(inv.input[0])
    ensures r.Ok? ==> r.value.tmpDirectory == host.resolve(host.tmpdir, host.packageName)
    ensures r.Ok? ==> r.value.workDirectory == host.resolve(r.value.tmpDirectory, CheckoutName(inv.input[0]))
    ensures r.Ok? ==> r.value.resultDirectory == host.resolve(r.value.tmpDirectory, ResultDirectoryName)
  {
    if |inv.input| == 0 then Err(MissingTrainingName)
    else
      var name := inv.input[0];
      var tmp := host.resolve(host.tmpdir, host.packageName);
      Ok(Config(
        trainingName := name,
        additionalBranches := Flags.ParseAdditional(inv.short, inv.long),
        destinationFile := if |inv.input| > 1 then host.resolve(host.cwd, inv.input[1])
                           else DefaultDestination(name),
        tmpDirectory := tmp,
        workDirectory := host.resolve(tmp, CheckoutName(name)),
        resultDirectory := host.resolve(tmp, ResultDirectoryName),
        gitUrl := CloneUrl(name)))
  }

  /** The temporary root does not depend on the training name: two runs on
      one host, for any two trainings, use (and first delete) the same
      directory. */
  lemma SharedWorkspaceRoot(a: Invocation, b: Invocation, host: Host)
    requires |a.input| > 0 && |b.input| > 0
    ensures Configure(a, host).value.tmpDirectory == Configure(b, host).value.tmpDirectory
  {
  }
}
