/** The branch loop (index.js:70-80): for each selected branch in turn, check
    it out in the working clone, create the branch's directory in the result
    tree, and copy the working clone into it. The effects themselves are not
    modelled; the loop produces the sequence of actions it requests. */
module Materialize {
  import opened Wrappers

  datatype Action =
    | Checkout(branch: string, cwd: string)   // `git checkout <branch>` in the working clone
    | MakeDirectory(path: string)             // `mkdirp(path)`
    | CopyTree(source: string, target: string) // `cpr(source, target, ...)`

  /** The directory a branch is copied into (index.js:75). */
  function BranchDirectory(resultDirectory: string, branch: string,
                           resolve: (string, string) -> string): string
  {
    resolve(resultDirectory, branch)
  }

  /** The actions of one pass through the loop body (index.js:73-79). */
  function BranchActions(branch: string, workDirectory: string, resultDirectory: string,
                         resolve: (string, string) -> string): seq<Action>
  {
    var target := BranchDirectory(resultDirectory, branch, resolve);
    [Checkout(branch, workDirectory), MakeDirectory(target), CopyTree(workDirectory, target)]
  }

  /** The actions of the whole loop, branch after branch: three per branch,
      and only the first of each three is a checkout. */
  function Plan(branches: seq<string>, workDirectory: string, resultDirectory: string,
                resolve: (string, string) -> string): (plan: seq<Action>)
    ensures |plan| == 3 * |branches|
    ensures forall j :: 0 <= j < |plan| ==> (plan[j].Checkout? <==> j % 3 == 0)
  {
    if branches == [] then []
    else Plan(branches[..|branches| - 1], workDirectory, resultDirectory, resolve)
         + BranchActions(branches[|branches| - 1], workDirectory, resultDirectory, resolve)
  }

  /** The `for...of` loop of index.js:70-80, run over `branches`. */
  method MaterializeBranches(branches: seq<string>, workDirectory: string, resultDirectory: string,
                             resolve: (string, string) -> string)
    returns (actions: seq<Action>)
    ensures actions == Plan(branches, workDirectory, resultDirectory, resolve)
  {
    actions := [];
    for i := 0 to |branches|
      invariant actions == Plan(branches[..i], workDirectory, resultDirectory, resolve)
    {
      assert branches[..i + 1][..i] == branches[..i];
      actions := actions + BranchActions(branches[i], workDirectory, resultDirectory, resolve);
    }
    assert branches[..|branches|] == branches;
  }

  /** The plan is three actions per branch, and the i-th group checks out
      the i-th branch, creates its directory and copies the working clone
      there. */
  lemma {:induction false} PlanLayout(branches: seq<string>, workDirectory: string,
                                      resultDirectory: string, resolve: (string, string) -> string)
    ensures |Plan(branches, workDirectory, resultDirectory, resolve)| == 3 * |branches|
    ensures forall i {:trigger branches[i]} :: 0 <= i < |branches| ==>
              var plan, target := Plan(branches, workDirectory, resultDirectory, resolve),
                                  resolve(resultDirectory, branches[i]);
              && plan[3 * i] == Checkout(branches[i], workDirectory)
              && plan[3 * i + 1] == MakeDirectory(target)
              && plan[3 * i + 2] == CopyTree(workDirectory, target)
  {
    if branches != [] {
      var init := branches[..|branches| - 1];
      PlanLayout(init, workDirectory, resultDirectory, resolve);
      forall i | 0 <= i < |init| ensures branches[i] == init[i] { }
    }
  }

  /** The branch of the last checkout requested before position `j` of a
      sequence of actions, if any. */
  function LastCheckoutBefore(actions: seq<Action>, j: nat): Option<string>
    requires j <= |actions|
  {
    if j == 0 then None
    else if actions[j - 1].Checkout? then Some(actions[j - 1].branch)
    else LastCheckoutBefore(actions, j - 1)
  }

  /** One checkout at a time: in the requested actions, every copy is
      preceded by the checkout of the very branch whose directory it fills,
      with no other checkout in between. */
  lemma CopyFollowsItsCheckout(branches: seq<string>, workDirectory: string,
                               resultDirectory: string, resolve: (string, string) -> string,
                               j: nat)
    requires j < |Plan(branches, workDirectory, resultDirectory, resolve)|
    requires Plan(branches, workDirectory, resultDirectory, resolve)[j].CopyTree?
    ensures var plan := Plan(branches, workDirectory, resultDirectory, resolve);
            exists b :: LastCheckoutBefore(plan, j) == Some(b)
                        && plan[j] == CopyTree(workDirectory, resolve(resultDirectory, b))
  {
    var plan := Plan(branches, workDirectory, resultDirectory, resolve);
    PlanLayout(branches, workDirectory, resultDirectory, resolve);
    var i := j / 3;
    // Mentions branches[i] so that PlanLayout's facts about group i apply.
    assert branches[i] == branches[i];
    assert j == 3 * i + 2;
    assert LastCheckoutBefore(plan, j - 1) == Some(branches[i]);
  }
}
