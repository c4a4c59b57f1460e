/**
 * Finding the merged branches (`getMergedBranches` and
 * `getSquashMergedBranches` in index.js).
 *
 * A branch is merged when `git branch --merged` lists it (merged into the
 * checked-out branch, since no commit is named), or when the squash test
 * against the trunk says so: a commit with the branch's tree and the merge base as
 * its only parent is built, and `git cherry <trunk> <commit>` marks it `-`
 * when an equivalent change is already in the trunk.
 */
module Merged {
  import opened Wrappers
  import opened JsText
  import opened Process
  import opened GitCli

  const MergedArgs: seq<string> := ["branch", "--merged"]
  const RefNamesArgs: seq<string> := ["for-each-ref", "refs/heads/", "--format=%(refname:short)"]

  /** The trunk names, in order of preference. */
  const TrunkCandidates: seq<string> := ["main", "master"]

  predicate NoDuplicates(s: seq<string>)
  {
    forall i, j :: 0 <= i < j < |s| ==> s[i] != s[j]
  }

  predicate IsTrunkName(x: string)
  {
    x == "main" || x == "master"
  }

  // ---------------------------------------------------------------------------
  // Branches merged directly: the lines of `git branch --merged`

  /** A line of `git branch --merged`, not marked `*`, that reads `x` once trimmed. */
  predicate NamesLine(line: string, x: string)
  {
    !StartsWith(line, "*") && x == Trim(line)
  }

  /** As `NamesLine`, for a line that is not exactly `main` or `master` before trimming. */
  predicate NamesLineUntrimmed(line: string, x: string)
  {
    NamesLine(line, x) && !IsTrunkName(line)
  }

  /** Some line of `lines` names `x`. */
  predicate ListsName(lines: seq<string>, x: string)
  {
    |lines| > 0 && (NamesLine(lines[0], x) || ListsName(lines[1..], x))
  }

  /** Some line of `lines` names `x` and is not exactly `main` or `master` before trimming. */
  predicate ListsNameUntrimmed(lines: seq<string>, x: string)
  {
    |lines| > 0 && (NamesLineUntrimmed(lines[0], x) || ListsNameUntrimmed(lines[1..], x))
  }

  /**
   * The direct part as index.js writes it: the `main`/`master` test looks at
   * the line before it is trimmed, while git indents every line by two columns.
   */
  function KeepMergedAsWritten(lines: seq<string>): (names: seq<string>)
    ensures forall x :: x in names <==> ListsNameUntrimmed(lines, x)
  {
    if |lines| == 0 then []
    else
      var l := lines[0];
      var rest := KeepMergedAsWritten(lines[1..]);
      if !StartsWith(l, "*") && !IsTrunkName(l) then [Trim(l)] + rest else rest
  }

  function DirectMergedAsWritten(output: string): (names: seq<string>)
    ensures forall x :: x in names <==> ListsNameUntrimmed(Split(output, '\n'), x)
  {
    KeepMergedAsWritten(Split(output, '\n'))
  }

  /** The trunk survives the untrimmed test: git prints it as `  main`. */
  lemma {:induction false} AsWrittenKeepsTrunk(lines: seq<string>, trunk: string)
    requires IsTrunkName(trunk)
    requires "  " + trunk in lines
    ensures trunk in KeepMergedAsWritten(lines)
    decreases |lines|
  {
    var line := "  " + trunk;
    if lines[0] == line {
      assert line[0] == ' ';
      assert !StartsWith(line, "*") && !IsTrunkName(line);
      TrimIndented(trunk);
      assert KeepMergedAsWritten(lines) == [trunk] + KeepMergedAsWritten(lines[1..]);
    } else {
      assert line in lines[1..] by {
        var k :| 0 <= k < |lines| && lines[k] == line;
        assert lines[1..][k - 1] == line;
      }
      AsWrittenKeepsTrunk(lines[1..], trunk);
    }
  }

  /** On `feature`, with `main` merged into it, the direct part offers `main` for deletion. */
  lemma AsWrittenOffersMain(output: string)
    requires output == "* feature\n  main"
    ensures "main" in DirectMergedAsWritten(output)
  {
    FeatureListing(output);
    var lines: seq<string> := ["* feature", "  main"];
    assert "  " + "main" == "  main" == lines[1];
    AsWrittenKeepsTrunk(lines, "main");
  }

  lemma FeatureListing(output: string)
    requires output == "* feature\n  main"
    ensures Split(output, '\n') == ["* feature", "  main"]
  {
    var head, tail := "* feature", "  main";
    assert '\n' !in head && '\n' !in tail;
    assert output == head + "\n" + tail;
    SplitAtSeparator(head, tail, '\n');
    SplitPlain(tail, '\n');
  }

  /** The direct part with the trunk test applied to the trimmed name. */
  function KeepMerged(lines: seq<string>): (names: seq<string>)
    ensures forall x :: x in names <==> !IsTrunkName(x) && ListsName(lines, x)
  {
    if |lines| == 0 then []
    else
      var l := lines[0];
      var rest := KeepMerged(lines[1..]);
      if !StartsWith(l, "*") && !IsTrunkName(Trim(l)) then [Trim(l)] + rest else rest
  }

  /** The names `git branch --merged` lists, without the current branch and without `main` and `master`. */
  function DirectMerged(output: string): (names: seq<string>)
    ensures "main" !in names && "master" !in names
  {
    KeepMerged(Split(output, '\n'))
  }

  /** A line of `git branch --merged`: the current branch is marked `* `, the others are indented. */
  datatype MergedLine = MergedLine(isHead: bool, name: string)

  function FormatMerged(l: MergedLine): string
  {
    (if l.isHead then "* " else "  ") + l.name
  }

  /** A branch name as git allows it: not empty, no line break, no white space at either end. */
  predicate PlainName(x: string)
  {
    |x| > 0 && !IsSpace(x[0]) && !IsSpace(x[|x| - 1]) && '\n' !in x
  }

  /** The names of the listed branches that are neither checked out nor a trunk, in listing order. */
  function Deletable(ls: seq<MergedLine>): seq<string>
  {
    if |ls| == 0 then []
    else (if !ls[0].isHead && !IsTrunkName(ls[0].name) then [ls[0].name] else []) + Deletable(ls[1..])
  }

  lemma TrimIndented(x: string)
    requires |x| > 0 && !IsSpace(x[0]) && !IsSpace(x[|x| - 1])
    ensures Trim("  " + x) == x
  {
    var s := "  " + x;
    assert s[|s| - 1] == x[|x| - 1];
    assert TrimEnd(s) == s;
    assert s[0] == ' ' && s[1..] == " " + x;
    assert TrimStart(s) == TrimStart(" " + x);
    assert (" " + x)[1..] == x;
    assert TrimStart(" " + x) == TrimStart(x) == x;
  }

  function FormatAll(ls: seq<MergedLine>): (lines: seq<string>)
    ensures |lines| == |ls|
  {
    if |ls| == 0 then [] else [FormatMerged(ls[0])] + FormatAll(ls[1..])
  }

  /** How the corrected filter treats one line in git's format. */
  lemma FormattedLineKept(l: MergedLine)
    requires PlainName(l.name)
    ensures StartsWith(FormatMerged(l), "*") == l.isHead
    ensures !l.isHead ==> Trim(FormatMerged(l)) == l.name
  {
    var line := FormatMerged(l);
    assert line[..1] == (if l.isHead then "*" else " ");
    if !l.isHead {
      TrimIndented(l.name);
    }
  }

  /** For output in git's format, the corrected direct part is exactly `Deletable`. */
  lemma {:induction false} DirectMergedOfGitOutput(ls: seq<MergedLine>)
    requires forall k :: 0 <= k < |ls| ==> PlainName(ls[k].name)
    ensures KeepMerged(FormatAll(ls)) == Deletable(ls)
  {
    if |ls| > 0 {
      var lines := FormatAll(ls);
      assert lines[1..] == FormatAll(ls[1..]);
      DirectMergedOfGitOutput(ls[1..]);
      FormattedLineKept(ls[0]);
    }
  }

  // ---------------------------------------------------------------------------
  // Branches merged by squashing

  /** The first candidate that is among the branches. */
  function FirstPresent(candidates: seq<string>, branches: seq<string>): (r: Option<string>)
    ensures r.Some? ==> r.value in candidates && r.value in branches
    ensures r.None? ==> forall c :: c in candidates ==> c !in branches
  {
    if |candidates| == 0 then None
    else if candidates[0] in branches then Some(candidates[0])
    else FirstPresent(candidates[1..], branches)
  }

  /** The trunk: `main` if there is one, else `master`, else none. */
  function Trunk(branches: seq<string>): (r: Option<string>)
    ensures r.Some? ==> IsTrunkName(r.value) && r.value in branches
    ensures r.None? ==> "main" !in branches && "master" !in branches
  {
    FirstPresent(TrunkCandidates, branches)
  }

  lemma TrunkPrefersMain(branches: seq<string>)
    ensures Trunk(branches) == Some("main") <==> "main" in branches
    ensures Trunk(branches) == Some("master") <==> "main" !in branches && "master" in branches
    ensures Trunk(branches) == None <==> "main" !in branches && "master" !in branches
  {
    assert TrunkCandidates[1..] == ["master"];
    assert TrunkCandidates[1..][1..] == [];
  }

  /** The squash test for one branch: the four git calls, and `cherry` printing a line that starts with `-`. */
  predicate SquashVerdict(repo: Oracle, trunk: string, branch: string)
  {
    var ancestor := Git(repo, ["merge-base", trunk, branch]);
    var tree := Git(repo, ["rev-parse", branch + "^{tree}"]);
    var commit := Git(repo, ["commit-tree", tree, "-p", ancestor, "-m", "TMP"]);
    StartsWith(Git(repo, ["cherry", trunk, commit]), "-")
  }

  /** The branches, other than the trunk, that the squash test accepts, in listing order. */
  function SquashFilter(branches: seq<string>, trunk: string, repo: Oracle): (merged: seq<string>)
    ensures forall x :: x in merged <==> x in branches && x != trunk && SquashVerdict(repo, trunk, x)
  {
    if |branches| == 0 then []
    else
      var b := branches[0];
      var rest := SquashFilter(branches[1..], trunk, repo);
      assert forall x :: x in branches <==> x == b || x in branches[1..];
      if b != trunk && SquashVerdict(repo, trunk, b) then [b] + rest else rest
  }

  /** Filtering one more branch appends at most that branch: the result follows listing order. */
  lemma {:induction false} SquashFilterAppend(branches: seq<string>, b: string, trunk: string, repo: Oracle)
    ensures SquashFilter(branches + [b], trunk, repo)
         == SquashFilter(branches, trunk, repo) + (if b != trunk && SquashVerdict(repo, trunk, b) then [b] else [])
    decreases |branches|
  {
    var c := branches + [b];
    if |branches| == 0 {
      assert c == [b];
    } else {
      assert c[0] == branches[0] && c[1..] == branches[1..] + [b];
      SquashFilterAppend(branches[1..], b, trunk, repo);
    }
  }

  /**
   * `getSquashMergedBranches()` as a value: no branches gives none; no trunk
   * ends the run with status 1; otherwise the branches the squash test accepts.
   */
  function SquashMerged(repo: Oracle): (r: Step<seq<string>>)
    ensures var stdout := Git(repo, RefNamesArgs);
      && (stdout == "" ==> r == Continue([]))
      && (r.Stop? <==> stdout != "" && Trunk(Split(stdout, '\n')).None?)
      && (r.Stop? ==> r.end == Exited(1))
      && (r.Continue? && stdout != "" ==>
            var branches := Split(stdout, '\n');
            var trunk := Trunk(branches).value;
            forall x :: x in r.value <==> x in branches && x != trunk && SquashVerdict(repo, trunk, x))
  {
    var stdout := Git(repo, RefNamesArgs);
    if stdout == "" then Continue([])
    else
      var branches := Split(stdout, '\n');
      match Trunk(branches)
      case None => Stop(Exited(1))
      case Some(trunk) => Continue(SquashFilter(branches, trunk, repo))
  }

  /** The trunk loop of `getSquashMergedBranches`: the first of `main`, `master` that is a branch. */
  method ResolveTrunk(branches: seq<string>) returns (main: Option<string>)
    ensures main == Trunk(branches)
  {
    main := None;
    var c := 0;
    while c < |TrunkCandidates|
      invariant 0 <= c <= |TrunkCandidates|
      invariant main == None
      invariant Trunk(branches) == FirstPresent(TrunkCandidates[c..], branches)
    {
      if TrunkCandidates[c] in branches {
        main := Some(TrunkCandidates[c]);
        break;
      }
      assert TrunkCandidates[c..][1..] == TrunkCandidates[c + 1..];
      c := c + 1;
    }
  }

  /** One turn of the squash loop: the filter of one more branch. */
  lemma SquashFilterStep(branches: seq<string>, i: nat, trunk: string, repo: Oracle)
    requires i < |branches|
    ensures SquashFilter(branches[..i + 1], trunk, repo)
         == SquashFilter(branches[..i], trunk, repo)
          + (if branches[i] != trunk && SquashVerdict(repo, trunk, branches[i]) then [branches[i]] else [])
  {
    assert branches[..i + 1] == branches[..i] + [branches[i]];
    SquashFilterAppend(branches[..i], branches[i], trunk, repo);
  }

  /** The loop of `getSquashMergedBranches`: test every branch but the trunk, in listing order. */
  method FilterSquashed(branches: seq<string>, trunk: string, repo: Oracle) returns (merged: seq<string>)
    ensures merged == SquashFilter(branches, trunk, repo)
  {
    merged := [];
    for i := 0 to |branches|
      invariant merged == SquashFilter(branches[..i], trunk, repo)
    {
      var branch := branches[i];
      SquashFilterStep(branches, i, trunk, repo);
      if branch == trunk {
        continue;
      }
      var ancestor := Git(repo, ["merge-base", trunk, branch]);
      var tree := Git(repo, ["rev-parse", branch + "^{tree}"]);
      var commit := Git(repo, ["commit-tree", tree, "-p", ancestor, "-m", "TMP"]);
      var cherry := Git(repo, ["cherry", trunk, commit]);
      if StartsWith(cherry, "-") {
        merged := merged + [branch];
      }
    }
    assert branches[..|branches|] == branches;
  }

  /** `getSquashMergedBranches()`: resolve the trunk, then test every other branch in turn. */
  method SquashMergedBranches(repo: Oracle) returns (r: Step<seq<string>>)
    ensures r == SquashMerged(repo)
  {
    var stdout := Git(repo, RefNamesArgs);
    if stdout == "" {
      return Continue([]);
    }
    var branches := Split(stdout, '\n');
    var main := ResolveTrunk(branches);
    if main == None {
      return Stop(Exited(1));
    }
    var merged := FilterSquashed(branches, main.value, repo);
    return Continue(merged);
  }

  // ---------------------------------------------------------------------------
  // `[...new Set(names)]`

  /** The names not seen before, each at its first occurrence. */
  function DedupFrom(s: seq<string>, seen: set<string>): (r: seq<string>)
    ensures forall x :: x in r <==> x in s && x !in seen
    ensures NoDuplicates(r)
  {
    if |s| == 0 then []
    else if s[0] in seen then DedupFrom(s[1..], seen)
    else [s[0]] + DedupFrom(s[1..], seen + {s[0]})
  }

  function Dedup(s: seq<string>): (r: seq<string>)
    ensures NoDuplicates(r)
    ensures forall x :: x in r <==> x in s
  {
    DedupFrom(s, {})
  }

  /** The names a list holds. */
  function Elems(s: seq<string>): (r: set<string>)
    ensures forall x :: x in r <==> x in s
  {
    if |s| == 0 then {} else {s[0]} + Elems(s[1..])
  }

  /** Names from the first part come first, and the second part adds only names the first did not hold. */
  lemma {:induction false} DedupAppend(a: seq<string>, b: seq<string>, seen: set<string>)
    ensures DedupFrom(a + b, seen) == DedupFrom(a, seen) + DedupFrom(b, seen + Elems(a))
    decreases |a|
  {
    if |a| == 0 {
      assert a + b == b;
      assert seen + Elems(a) == seen;
    } else {
      assert (a + b)[1..] == a[1..] + b;
      assert Elems(a) == {a[0]} + Elems(a[1..]);
      if a[0] in seen {
        DedupAppend(a[1..], b, seen);
        assert seen + Elems(a[1..]) == seen + Elems(a);
      } else {
        DedupAppend(a[1..], b, seen + {a[0]});
        assert seen + {a[0]} + Elems(a[1..]) == seen + Elems(a);
      }
    }
  }

  /** A list that already has no duplicates is left as it is. */
  lemma {:induction false} DedupDistinct(s: seq<string>, seen: set<string>)
    requires NoDuplicates(s)
    requires forall x :: x in s ==> x !in seen
    ensures DedupFrom(s, seen) == s
    decreases |s|
  {
    if |s| > 0 {
      assert forall x :: x in s[1..] ==> x != s[0] by {
        forall k | 0 <= k < |s[1..]| ensures s[1..][k] != s[0] { assert s[1..][k] == s[k + 1]; }
      }
      DedupDistinct(s[1..], seen + {s[0]});
      assert [s[0]] + s[1..] == s;
    }
  }

  /** Removing duplicates twice is the same as once. */
  lemma DedupIdempotent(s: seq<string>)
    ensures Dedup(Dedup(s)) == Dedup(s)
  {
    DedupDistinct(Dedup(s), {});
  }

  // ---------------------------------------------------------------------------

  /**
   * `getMergedBranches()`: the direct part followed by the squash part, each
   * name once, at its first occurrence; no trunk ends the run with status 1.
   */
  function MergedBranches(repo: Oracle): (r: Step<seq<string>>)
    ensures r.Stop? <==> SquashMerged(repo).Stop?
    ensures r.Stop? ==> r.end == Exited(1)
    ensures r.Continue? ==> NoDuplicates(r.value)
    ensures r.Continue? ==> forall x :: x in r.value <==>
      x in DirectMerged(Git(repo, MergedArgs)) || x in SquashMerged(repo).value
  {
    var direct := DirectMerged(Git(repo, MergedArgs));
    match SquashMerged(repo)
    case Stop(e) => Stop(e)
    case Continue(squashed) => Continue(Dedup(direct + squashed))
  }

  /** The trunk is never offered: the direct part drops both trunk names and the squash part skips the trunk. */
  lemma MergedExcludesTrunk(repo: Oracle)
    requires MergedBranches(repo).Continue?
    ensures var stdout := Git(repo, RefNamesArgs);
      stdout != "" ==> Trunk(Split(stdout, '\n')).value !in MergedBranches(repo).value
  {
    var stdout := Git(repo, RefNamesArgs);
    if stdout != "" {
      var branches := Split(stdout, '\n');
      var trunk := Trunk(branches).value;
      TrunkPrefersMain(branches);
      assert IsTrunkName(trunk);
    }
  }

  /** Directly merged names come first, in their own order, then the squash-merged names not already listed. */
  lemma MergedOrder(repo: Oracle)
    requires MergedBranches(repo).Continue?
    ensures var direct := DirectMerged(Git(repo, MergedArgs));
      MergedBranches(repo).value == Dedup(direct) + DedupFrom(SquashMerged(repo).value, Elems(direct))
  {
    var direct := DirectMerged(Git(repo, MergedArgs));
    var squashed := SquashMerged(repo).value;
    DedupConcat(direct, squashed);
  }

  lemma DedupConcat(a: seq<string>, b: seq<string>)
    ensures Dedup(a + b) == Dedup(a) + DedupFrom(b, Elems(a))
  {
    DedupAppend(a, b, {});
    assert {} + Elems(a) == Elems(a);
  }
}
