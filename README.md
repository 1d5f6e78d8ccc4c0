# zen-extract-tps, modelled in Dafny

`zen-extract-tps` packages the exercise branches of a training repository
into one zip archive. It clones `git@github.com:Zenika/formation-<name>.git`
into a temporary directory. It lists the remote branches and keeps those
named `origin/tp<digits>`, then appends the branches given with
`-b`/`--additional-branch`. For each selected branch it checks the branch
out and copies the working clone into `result/<branch>`. Finally it zips
the result tree.

This project models the logic that the program computes itself, in
`index.js`:

- **Branch selection** (`branches.dfy`, module `Branches`): the output of
  `git branch -r` is split into lines. A line is kept when it matches
  `/^\s*origin\/tp\d+$/`. The capture group of `/^\s*origin\/(tp\d+)$/` is
  taken from each kept line, and the additional branches are appended.
  `\s` is the full JavaScript whitespace class and `\d` is the ASCII digits.
  The filter and the capture are separate definitions, as in the source,
  and `Branches.ExecTp` proves they agree.
- **Flag parsing** (`flags.dfy`, module `Flags`): `b || additionalBranch || ''`
  follows JavaScript truthiness, so an empty value counts as absent. The
  value is then split on `,` and empty names are dropped.
- **Derived names and configuration** (`naming.dfy`, module `Naming`): the
  default archive name, the clone URL, the working-clone name, and the
  temporary, working and result directories.
- **The branch loop** (`materialize.dfy`, module `Materialize`): the
  `for...of` loop over the selected branches. It is a method that returns
  the actions it requests, in order: checkout, directory creation, copy.
  It is proved against a specification function.
- **JavaScript array and string operations** (`strings.dfy`, module
  `Strings`): `split`, `join` and `filter`, with their inverse and
  distribution laws.
- **Worked cases** (`scenarios.dfy`, module `Scenarios`): concrete lines
  and listings, derived from the general lemmas.

The host is a value of type `Naming.Host`. It holds the current directory,
`os.tmpdir()`, the package name and `path.resolve`. `path.resolve` is a
function-typed field whose meaning is left open.

Points where the code's behaviour may be unexpected:

- The default destination `trainingName + '-tps.zip'` is left relative
  (index.js:32). Only a destination given as the second input is resolved
  (index.js:39).
- The temporary root `resolve(tmpdir, packageName)` does not depend on the
  training name (index.js:42). Two runs for different trainings on one host
  therefore share it, and each one deletes it at start-up
  (`Naming.SharedWorkspaceRoot`).
- Only leading whitespace is allowed before `origin/`. Whitespace or `\r`
  after the digits rejects the line (`Scenarios.RejectsTrailingCharacter`).

## Model

| member | source | states |
|---|---|---|
| `Strings.Split` | index.js:61 | `split` on one character gives at least one part, and no part contains the separator |
| `Strings.JoinSplit` | index.js:61 | joining the parts of a split with the separator gives back the input |
| `Strings.SplitJoin` | index.js:29 | splitting undoes joining when no part contains the separator, so `split` and `join` are inverses |
| `Strings.SplitWithoutSeparator` | index.js:61 | a text without the separator splits into itself alone |
| `Strings.SplitPrefixed` | index.js:61 | a separator-free run followed by the separator becomes the first part, and the rest is split on its own |
| `Strings.SplitAround` | index.js:61 | splitting distributes over one occurrence of the separator: `split(a + sep + b) == split(a) + split(b)` |
| `Strings.ConcatSplit` | index.js:28-29 | concatenating the parts of a split gives the text with every separator removed |
| `Strings.NonEmpty` | index.js:30 | the filter predicate `name !== ''`, defined as the test that the string is not empty; what dropping such names does is stated by `Strings.ConcatNonEmpty` and `Flags.ParseAdditional` |
| `Strings.Filter` | index.js:62-64 | `filter` keeps only accepted elements, keeps every accepted one, and never grows the sequence |
| `Strings.FilterAppend` | index.js:62-64 | `filter` distributes over concatenation, so the filtered list keeps the original order |
| `Strings.FilterSingle` | index.js:62-64 | a single element is kept exactly when the predicate accepts it |
| `Strings.FilterKeepsAll` | index.js:30 | a filter that accepts every element returns the sequence unchanged |
| `Strings.ConcatNonEmpty` | index.js:30 | dropping empty names does not change their concatenation |
| `Branches.IsWs` | index.js:63 | `\s` is the ECMAScript WhiteSpace and LineTerminator set, listed character by character |
| `Branches.WsInBasicPlane` | index.js:63 | every character `\s` matches is one UTF-16 code unit and none is a digit |
| `Branches.SkipWs` | index.js:63 | `\s*` consumes a whitespace-only prefix and stops at the first non-whitespace character |
| `Branches.LeadingWs` | index.js:63 | every line is its whitespace prefix followed by what `\s*` leaves |
| `Branches.SkipWsOver` | index.js:63 | after whitespace, `\s*` stops exactly where a non-whitespace text begins |
| `Branches.MatchesTpLine` | index.js:63 | `/^\s*origin\/tp\d+$/.test(line)`: after the leading whitespace, `origin/tp` and then only digits, at least one; an accepted line is longer than `origin/tp` |
| `Branches.MatchesTpLineIff` | index.js:63 | the filter accepts a line if and only if it is whitespace, `origin/tp`, one or more digits and nothing else |
| `Branches.MatchedLineIsTpLine` | index.js:63 | every accepted line has the grammar whitespace, `origin/tp`, digit+ |
| `Branches.TpLineIsMatched` | index.js:63 | every line of that grammar is accepted |
| `Branches.TpLineShapes` | index.js:63-66 | after the whitespace, `origin/tp\d+` and `origin/(tp\d+)` describe the same texts |
| `Branches.ExecTp` | index.js:66 | the capture regex matches exactly the lines the filter keeps, so `exec(...)[1]` never fails on them; the capture is `tp` plus digits, and the line is whitespace, `origin/` and the capture |
| `Branches.ExecTpOfListingLine` | index.js:63-66 | a line `<ws>origin/<entry>` is kept exactly when the entry is a `tp<digits>` name, and the entry is then what is extracted |
| `Branches.ExtractNames` | index.js:65-67 | the map gives one name per kept line, in order; each is that line's capture and has the form `tp<digits>` |
| `Branches.ExtractNamesAppend` | index.js:65-67 | name extraction distributes over concatenation of kept lines |
| `Branches.TpLines` | index.js:61-64 | the kept lines are exactly the lines of the output that the filter accepts, and none holds a newline |
| `Branches.DiscoveredBranches` | index.js:61-67 | one `tp<digits>` name per kept line, in order, each that line's capture |
| `Branches.SelectBranches` | index.js:61-68 | the selection has one entry per kept line plus one per additional branch (no de-duplication); its first part is the kept lines' captures in listing order, all `tp<digits>`; the rest is the additional branches unchanged, in flag order |
| `Branches.DiscoveredAcrossNewline` | index.js:61-67 | discovery treats lines independently and in order: `a + "\n" + b` discovers `a`'s branches and then `b`'s |
| `Branches.DiscoveredOneLine` | index.js:61-67 | a single line contributes its capture when it matches and nothing otherwise |
| `Branches.ListingLine` | index.js:60-67 | one line `  origin/<entry>` of a listing is discovered as `[entry]` when the entry is a `tp<digits>` name, else as nothing |
| `Branches.DiscoveredFromListing` | index.js:60-67 | for a `git branch -r` listing of any entries, the discovered branches are exactly the entries that are `tp<digits>` names, in listing order |
| `Branches.SelectionMultiplicity` | index.js:68 | each name is selected as often as it is discovered plus as often as it is given as an additional branch, so a name in both parts appears twice |
| `Flags.FlagValue` | index.js:28 | the chain of JavaScript or-operators yields the empty text exactly when neither flag is truthy; otherwise it is the text of one of the flags, and `-b`'s whenever `-b` is truthy |
| `Flags.ParseAdditional` | index.js:28-30 | no parsed name is empty or contains a comma; their concatenation is the flag value with its commas removed; with neither flag truthy the list is empty |
| `Flags.ShortFlagWins` | index.js:28 | a non-empty `-b` value makes `--additional-branch` irrelevant |
| `Flags.LongFlagWhenShortFalsy` | index.js:28 | an absent or empty `-b` falls through to `--additional-branch` |
| `Flags.ParseJoined` | index.js:28-30 | parsing a comma-joined list of non-empty, comma-free names gives the list back |
| `Naming.DefaultDestination` | index.js:32 | the default archive is the training name followed by `-tps.zip`, and the name can be read back from it |
| `Naming.CloneUrl` | index.js:45 | the clone URL is `git@github.com:Zenika/formation-` + name + `.git`, and the name can be read back from it |
| `Naming.CheckoutName` | index.js:43 | the working clone is named `formation-` + name, and the name can be read back from it |
| `Naming.CheckoutNameMatchesUrl` | index.js:43-45 | for a training name without `/`, the last `/`-separated segment of the clone URL is the working-clone name followed by `.git` |
| `Naming.NamesInjective` | index.js:32-45 | different training names never share a clone URL, a working-clone name or a default archive name |
| `Naming.Configure` | index.js:27-45 | a missing training name is a usage error, and only then is there one; otherwise the configuration holds the first input as the name, the parsed additional branches, the second input resolved against the current directory when it exists and the default archive name otherwise, the clone URL, and the temporary, working (`formation-<name>`) and result directories under the package-named temporary root |
| `Naming.SharedWorkspaceRoot` | index.js:42 | the temporary root is the same for every training name on one host |
| `Materialize.BranchDirectory` | index.js:75 | a branch's result directory, defined as `path.resolve(resultDirectory, branch)`; its place in the loop is stated by `Materialize.PlanLayout` |
| `Materialize.BranchActions` | index.js:73-79 | one pass of the loop body, defined as the checkout of the branch in the working clone, the creation of its directory and the copy of the working clone into it; the order across passes is stated by `Materialize.PlanLayout` and `Materialize.CopyFollowsItsCheckout` |
| `Materialize.Plan` | index.js:70-80 | the loop's actions are three per branch, and only the first of each three is a checkout |
| `Materialize.MaterializeBranches` | index.js:70-80 | the loop requests exactly the actions of the plan: for each branch in order, checkout, directory creation, copy |
| `Materialize.PlanLayout` | index.js:70-80 | the plan has three actions per branch; group `i` checks out branch `i` in the working clone, creates `resolve(resultDirectory, branch)` and copies the working clone into it |
| `Materialize.CopyFollowsItsCheckout` | index.js:70-80 | every copy comes right after the checkout of the branch whose directory it fills, with no other checkout in between |
| `Scenarios.RejectsHeadPointer` | index.js:63 | `  origin/HEAD -> origin/master` is rejected |
| `Scenarios.RejectsOtherBranch` | index.js:63 | `  origin/feature-x` is rejected |
| `Scenarios.RejectsTpWithoutDigits` | index.js:63 | `origin/tp` without digits is rejected |
| `Scenarios.RejectsTrailingCharacter` | index.js:63 | any non-digit after the digits, a space or a carriage return included, rejects the line |
| `Scenarios.AcceptsTpLine` | index.js:63-66 | any whitespace, then `origin/tp`, then one or more digits is kept, and `tp` plus the digits is extracted |
| `Scenarios.ExampleListing` | index.js:60-67 | a listing of HEAD, tp1, tp2 and feature-x discovers tp1 and tp2 |
| `Scenarios.SelectionExample` | index.js:60-68 | that listing selects tp1, tp2 and then the additional branches |
| `Scenarios.ParsedFlagExample` | index.js:28-30 | `-b custom1,custom2` gives custom1 and custom2 |
| `Scenarios.EmptySegmentsDropped` | index.js:28-30 | `,a,,b,` gives a and b |
| `Scenarios.EmptyShortFlagFallsThrough` | index.js:28-30 | `-b ''` with `--additional-branch c` gives c |

## Left out

- The effects of the `co` generator are not modelled: removing and creating directories, `git clone`, `git checkout`, and the `cpr` copy with its `/\.git/` filter (index.js:51-58, 70-80, 86, 92). They are subprocess and filesystem calls into libraries not shown here. The branch loop is modelled only as the actions it requests.
- Failures are not modelled. A failing action aborts the run, and the handler then logs and deletes the temporary root (index.js:90-93). The model's action list assumes every action succeeds.
- `zip` (index.js:98-117) is not modelled. It only wraps the `archiver` stream and a file write stream.
- `meow` is not modelled: neither its argument parsing nor its help text. The inputs and the two flag spellings are given as values. A `-b` without a value, which `meow` turns into a boolean, is left out.
- `Naming.Configure` treats a missing training name as a usage error. In the source, `showHelp` prints the help and ends the process (index.js:34-37). The model does not follow the code past that point.
- `path.resolve`, `os.tmpdir()` and the package name from `package.json` depend on the host, so they are fields of `Naming.Host`.
- Commands are shell strings: `'git clone ' + gitUrl` and `'git checkout ' + branch` (index.js:56, 73). The model carries the URL and the branch name as they are. It does not capture how the shell re-splits a name with spaces or metacharacters, nor the directory `git clone` chooses for a training name containing `/`. Such a name clones somewhere other than `formation-<name>`.
- Naming.CheckoutNameMatchesUrl: stated only for training names without `/`; for other names the last segment of the URL is not the working clone's name.
- Console output is not modelled (index.js:35, 54, 58, 71, 82, 88, 91).
- Strings are sequences of Unicode scalar values. JavaScript's UTF-16 code units are not modelled. Every character `\s` and `\d` can match lies in the Basic Multilingual Plane, so line matching does not depend on this.
