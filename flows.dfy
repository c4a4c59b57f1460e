/**
 * The command handlers of index.js and the command-line dispatch.
 *
 * A run is described by a `Trace`: the prompts shown, in order; the git
 * calls that move or delete a ref (`checkout`, `branch -D`); and how the
 * run ended. Prompt answers are inputs; a prompt the user interrupts raises
 * the prompt library's `ExitPromptError`, which `run` swallows.
 */
module Flows {
  import opened Wrappers
  import opened JsText
  import opened Process
  import opened GitCli
  import opened Branches
  import opened Merged

  datatype Prompt =
    | Select(choices: seq<Choice>, default: Option<string>)
    | Checkbox(choices: seq<Choice>)
    | Confirm(names: seq<string>)

  /** What the user does at a prompt: answers it, or interrupts it. */
  datatype Answer<+T> = Given(value: T) | Cancelled

  datatype Trace = Trace(prompts: seq<Prompt>, updates: seq<seq<string>>, end: Termination)

  /** What a branch selector yields: the prompts it showed and the names to delete, or the end of the run. */
  datatype Selection = Selection(prompts: seq<Prompt>, result: Step<seq<string>>)

  /** The answers the user gives to each kind of prompt. */
  datatype Answers = Answers(select: Answer<string>, checkbox: Answer<seq<string>>, confirm: Answer<bool>)

  /** Everything outside the model that a run depends on. */
  datatype World = World(repo: Oracle, ascending: Sorter, descending: Sorter, answers: Answers)

  // ---------------------------------------------------------------------------
  // switch

  /**
   * `switchBranch()`: no prompt when the current branch is the only one;
   * otherwise a prompt with the current branch as default, and a checkout
   * only when another branch is picked.
   */
  function SwitchBranch(listing: string, sort: Sorter, answer: Answer<string>): (t: Trace)
    ensures listing == "" ==> t == Trace([], [], Exited(1))
    ensures t.updates == [] || (answer.Given? && t.updates == [["checkout", answer.value]])
    ensures t.updates != [] ==> Some(answer.value) != CurrentBranch(listing) && t.end == Returned
    ensures listing != "" && answer == Cancelled ==>
      var l := GetBranches(listing, sort).value;
      !(|l.all| == 1 && l.all[0].value == l.current) ==> t == Trace([Select(l.all, l.current)], [], Threw(PromptExitError))
  {
    match GetBranches(listing, sort)
    case Stop(e) => Trace([], [], e)
    case Continue(Listed(current, all)) =>
      if |all| == 1 && all[0].value == current then Trace([], [], Exited(0))
      else
        var prompts := [Select(all, current)];
        match answer
        case Cancelled => Trace(prompts, [], Threw(PromptExitError))
        case Given(chosen) =>
          if Some(chosen) == current then Trace(prompts, [], Exited(0))
          else Trace(prompts, [["checkout", chosen]], Returned)
  }

  /** With the current branch the only choice, the run ends with status 0 and nothing is asked. */
  lemma SwitchOnlyBranch(listing: string, sort: Sorter, answer: Answer<string>)
    requires listing != ""
    requires var all := GetBranches(listing, sort).value.all;
      |all| == 1 && all[0].value == CurrentBranch(listing)
    ensures SwitchBranch(listing, sort, answer) == Trace([], [], Exited(0))
  {
  }

  /** Otherwise one prompt is shown; picking the current branch changes nothing, any other is checked out once. */
  lemma SwitchPicks(listing: string, sort: Sorter, chosen: string)
    requires listing != ""
    requires var all := GetBranches(listing, sort).value.all;
      !(|all| == 1 && all[0].value == CurrentBranch(listing))
    ensures var t := SwitchBranch(listing, sort, Given(chosen));
      var l := GetBranches(listing, sort).value;
      && t.prompts == [Select(l.all, l.current)]
      && (Some(chosen) == l.current ==> t.updates == [] && t.end == Exited(0))
      && (Some(chosen) != l.current ==> t.updates == [["checkout", chosen]] && t.end == Returned)
  {
  }

  /**
   * On a listing of several branches with branch k checked out: picking it
   * checks nothing out; picking any other name checks out exactly that name.
   */
  lemma SwitchOnRendered(refs: seq<Ref>, k: nat, sort: Sorter, chosen: string)
    requires 2 <= |refs| && k < |refs| && refs[k].isHead
    requires forall m :: 0 <= m < |refs| ==> PlainRef(refs[m])
    requires forall m :: 0 <= m < k ==> !refs[m].isHead
    requires |sort(Lines(refs))| == |refs|
    ensures var t := SwitchBranch(Render(refs), sort, Given(chosen));
      && (chosen == refs[k].name ==> t.updates == [] && t.end == Exited(0))
      && (chosen != refs[k].name ==> t.updates == [["checkout", chosen]] && t.end == Returned)
  {
    RenderSplitsIntoLines(refs);
    CurrentOfRendered(refs, k);
    SwitchPicks(Render(refs), sort, chosen);
  }

  /**
   * `b switch` end to end, from what git prints: with branch k checked out,
   * picking it checks nothing out and picking any other name checks out
   * exactly that name.
   */
  lemma SwitchCommand(verb: string, w: World, refs: seq<Ref>, k: nat)
    requires verb == "s" || verb == "switch"
    requires w.repo(ListingArgs) == Render(refs) + "\n"
    requires 2 <= |refs| && k < |refs| && refs[k].isHead
    requires forall m :: 0 <= m < |refs| ==> PlainRef(refs[m])
    requires forall m :: 0 <= m < k ==> !refs[m].isHead
    requires |w.descending(Lines(refs))| == |refs|
    requires w.answers.select.Given?
    ensures var t := Dispatch(Some(verb), w);
      var chosen := w.answers.select.value;
      && (chosen == refs[k].name ==> t.updates == [] && t.end == Exited(0))
      && (chosen != refs[k].name ==> t.updates == [["checkout", chosen]] && t.end == Returned)
  {
    RawListing(w.repo, refs);
    var chosen := w.answers.select.value;
    assert Dispatch(Some(verb), w) == Run(SwitchBranch(Render(refs), w.descending, Given(chosen)));
    SwitchOnRendered(refs, k, w.descending, chosen);
  }

  // ---------------------------------------------------------------------------
  // delete

  /** `all.filter(b => b.value != current)`: the choices other than the current branch, in order. */
  function Others(all: seq<Choice>, current: Option<string>): (r: seq<Choice>)
    ensures forall c :: c in r <==> c in all && c.value != current
    ensures |r| <= |all|
  {
    if |all| == 0 then []
    else (if all[0].value != current then [all[0]] else []) + Others(all[1..], current)
  }

  /** Filtering keeps the order: it distributes over concatenation. */
  lemma {:induction false} OthersAppend(a: seq<Choice>, b: seq<Choice>, current: Option<string>)
    ensures Others(a + b, current) == Others(a, current) + Others(b, current)
    decreases |a|
  {
    if |a| == 0 {
      assert a + b == b;
    } else {
      assert (a + b)[1..] == a[1..] + b;
      OthersAppend(a[1..], b, current);
    }
  }

  /**
   * `selectBranchesToDelete()`: every branch but the current one is offered;
   * when there is none, the run ends with status 0 before any prompt.
   */
  function SelectBranchesToDelete(listing: string, sort: Sorter, answer: Answer<seq<string>>): (s: Selection)
    ensures listing == "" ==> s == Selection([], Stop(Exited(1)))
    ensures forall p :: p in s.prompts ==> p.Checkbox? && forall c :: c in p.choices ==> c.value != CurrentBranch(listing)
    ensures s.result.Continue? ==> answer == Given(s.result.value)
    ensures listing != "" ==>
      var l := GetBranches(listing, sort).value;
      var deletable := Others(l.all, l.current);
      && (deletable == [] ==> s == Selection([], Stop(Exited(0))))
      && (deletable != [] ==> s.prompts == [Checkbox(deletable)])
      && (deletable != [] ==> s.result == (if answer.Given? then Continue(answer.value) else Stop(Threw(PromptExitError))))
  {
    match GetBranches(listing, sort)
    case Stop(e) => Selection([], Stop(e))
    case Continue(Listed(current, all)) =>
      var deletable := Others(all, current);
      if |deletable| == 0 then Selection([], Stop(Exited(0)))
      else
        var prompts := [Checkbox(deletable)];
        match answer
        case Cancelled => Selection(prompts, Stop(Threw(PromptExitError)))
        case Given(chosen) => Selection(prompts, Continue(chosen))
  }

  /** When the current branch is the only one, the run ends with status 0 and nothing is asked. */
  lemma NothingToDelete(listing: string, sort: Sorter, answer: Answer<seq<string>>)
    requires listing != ""
    requires forall c :: c in GetBranches(listing, sort).value.all ==> c.value == CurrentBranch(listing)
    ensures SelectBranchesToDelete(listing, sort, answer) == Selection([], Stop(Exited(0)))
  {
    var l := GetBranches(listing, sort).value;
    assert |Others(l.all, l.current)| == 0 by {
      if |Others(l.all, l.current)| > 0 {
        assert Others(l.all, l.current)[0] in Others(l.all, l.current);
      }
    }
  }

  /**
   * `deleteBranches(selectBranches)`: an empty selection ends the run with
   * status 0; otherwise the names are confirmed and, on yes, deleted by one
   * `git branch -D` with all of them in order.
   */
  function DeleteBranches(selection: Selection, confirm: Answer<bool>): (t: Trace)
    ensures selection.result.Stop? ==> t == Trace(selection.prompts, [], selection.result.end)
    ensures selection.result == Continue([]) ==> t == Trace(selection.prompts, [], Exited(0))
    ensures t.updates != [] <==> selection.result.Continue? && selection.result.value != [] && confirm == Given(true)
    ensures t.updates != [] ==> t.updates == [["branch", "-D"] + selection.result.value] && t.end == Returned
    ensures selection.result.Continue? && selection.result.value != [] ==>
      t.prompts == selection.prompts + [Confirm(selection.result.value)]
    ensures selection.result.Continue? && selection.result.value != [] && confirm != Given(true) ==>
      t.updates == [] && t.end == (if confirm == Cancelled then Threw(PromptExitError) else Returned)
  {
    match selection.result
    case Stop(e) => Trace(selection.prompts, [], e)
    case Continue(chosen) =>
      if |chosen| == 0 then Trace(selection.prompts, [], Exited(0))
      else
        var prompts := selection.prompts + [Confirm(chosen)];
        match confirm
        case Cancelled => Trace(prompts, [], Threw(PromptExitError))
        case Given(yes) =>
          if yes then Trace(prompts, [["branch", "-D"] + chosen], Returned)
          else Trace(prompts, [], Returned)
  }

  // ---------------------------------------------------------------------------
  // run and the command line

  /** `run(task)`: an interrupted prompt ends the run quietly; every other error goes on. */
  function Run(t: Trace): (r: Trace)
    ensures r.prompts == t.prompts && r.updates == t.updates
    ensures r.end != Threw(PromptExitError)
    ensures t.end != Threw(PromptExitError) ==> r == t
    ensures t.end == Threw(PromptExitError) ==> r.end == Returned
  {
    if t.end == Threw(PromptExitError) then t.(end := Returned) else t
  }

  /** `printStatus()` reduced to what it decides: the listing must not be empty. */
  function Status(listing: string, sort: Sorter): (t: Trace)
    ensures t.prompts == [] && t.updates == []
    ensures t.end == (if listing == "" then Exited(1) else Returned)
  {
    match GetBranches(listing, sort)
    case Stop(e) => Trace([], [], e)
    case Continue(_) => Trace([], [], Returned)
  }

  predicate IsVerb(verb: string)
  {
    verb in ["s", "switch", "d", "delete", "dm", "delete-merged", "help", "-h", "--help"]
  }

  /**
   * The command-line dispatch on `process.argv[2]` (`None` when absent): help
   * ends normally, an unrecognized command ends with status 1, and no run
   * ends on an interrupted prompt.
   */
  function Dispatch(command: Option<string>, w: World): (t: Trace)
    ensures command.Some? && command.value in ["help", "-h", "--help"] ==> t == Trace([], [], Returned)
    ensures command.Some? && !IsVerb(command.value) ==> t == Trace([], [], Exited(1))
    ensures t.end != Threw(PromptExitError)
  {
    var listing := Git(w.repo, ListingArgs);
    match command
    case None => Run(Status(listing, w.ascending))
    case Some(verb) =>
      if verb == "s" || verb == "switch" then
        Run(SwitchBranch(listing, w.descending, w.answers.select))
      else if verb == "d" || verb == "delete" then
        Run(DeleteBranches(SelectBranchesToDelete(listing, w.ascending, w.answers.checkbox), w.answers.confirm))
      else if verb == "dm" || verb == "delete-merged" then
        Run(DeleteBranches(Selection([], MergedBranches(w.repo)), w.answers.confirm))
      else if verb == "help" || verb == "-h" || verb == "--help" then
        Trace([], [], Returned)
      else
        Trace([], [], Exited(1))
  }

  /** What `d`/`delete` runs. */
  lemma DispatchDelete(verb: string, w: World)
    requires verb == "d" || verb == "delete"
    ensures Dispatch(Some(verb), w)
         == Run(DeleteBranches(SelectBranchesToDelete(Git(w.repo, ListingArgs), w.ascending, w.answers.checkbox), w.answers.confirm))
  {
  }

  /** What `dm`/`delete-merged` runs. */
  lemma DispatchDeleteMerged(verb: string, w: World)
    requires verb == "dm" || verb == "delete-merged"
    ensures Dispatch(Some(verb), w) == Run(DeleteBranches(Selection([], MergedBranches(w.repo)), w.answers.confirm))
  {
  }

  /**
   * Whatever the command, at most one git call moves or deletes a ref: a
   * checkout of a branch other than the current one, or one forced deletion
   * of a non-empty list the user confirmed.
   */
  lemma AtMostOneUpdate(command: Option<string>, w: World)
    ensures var t := Dispatch(command, w);
      && |t.updates| <= 1
      && t.end != Threw(PromptExitError)
      && (t.updates != [] ==>
            (t.updates[0][0] == "checkout" && Some(t.updates[0][1]) != CurrentBranch(Git(w.repo, ListingArgs)))
            || (t.updates[0][..2] == ["branch", "-D"] && |t.updates[0]| > 2 && w.answers.confirm == Given(true)))
  {
    var t := Dispatch(command, w);
    if t.updates != [] {
      var u := t.updates[0];
      assert u == ["checkout", u[1]] || (u == ["branch", "-D"] + u[2..] && |u| > 2);
    }
  }

  /** `delete` never offers the current branch. */
  lemma DeleteNeverOffersCurrent(verb: string, w: World)
    requires verb == "d" || verb == "delete"
    ensures forall p :: p in Dispatch(Some(verb), w).prompts && p.Checkbox? ==>
      forall c :: c in p.choices ==> c.value != CurrentBranch(Git(w.repo, ListingArgs))
  {
    DispatchDelete(verb, w);
  }

  /** Confirming a list found without a selection prompt: only the confirmation is shown, and the list is what gets deleted. */
  lemma ConfirmedDeletion(found: Step<seq<string>>, confirm: Answer<bool>)
    ensures var t := Run(DeleteBranches(Selection([], found), confirm));
      && (forall p :: p in t.prompts ==> p.Confirm?)
      && (t.updates != [] ==> found.Continue? && t.updates[0][2..] == found.value)
  {
    var t := DeleteBranches(Selection([], found), confirm);
    if found.Continue? && found.value != [] {
      assert t.prompts == [Confirm(found.value)];
    }
    if t.updates != [] {
      assert t.updates[0] == ["branch", "-D"] + found.value;
    }
  }

  /**
   * `delete-merged` asks for no selection: it confirms the merged branches as
   * found, deletes each once, and never deletes the trunk.
   */
  lemma DeleteMergedDeletes(verb: string, w: World)
    requires verb == "dm" || verb == "delete-merged"
    ensures var t := Dispatch(Some(verb), w);
      && (forall p :: p in t.prompts ==> p.Confirm?)
      && (t.updates != [] ==>
            var names := t.updates[0][2..];
            var stdout := Git(w.repo, RefNamesArgs);
            && NoDuplicates(names)
            && (stdout != "" ==> Trunk(Split(stdout, '\n')).value !in names))
  {
    var m := MergedBranches(w.repo);
    var t := Dispatch(Some(verb), w);
    DispatchDeleteMerged(verb, w);
    ConfirmedDeletion(m, w.answers.confirm);
    if t.updates != [] {
      MergedExcludesTrunk(w.repo);
    }
  }

  /** Interrupting the select prompt of `switch` ends the run normally and checks nothing out. */
  lemma CancelledSwitch(verb: string, w: World)
    requires verb == "s" || verb == "switch"
    requires w.answers.select == Cancelled
    ensures var t := Dispatch(Some(verb), w);
      && t.updates == []
      && (t.prompts != [] ==> t.end == Returned)
  {
    var listing := Git(w.repo, ListingArgs);
    assert Dispatch(Some(verb), w) == Run(SwitchBranch(listing, w.descending, Cancelled));
  }

  /** Interrupting the checkbox of `delete` ends the run normally and deletes nothing. */
  lemma CancelledCheckbox(verb: string, w: World)
    requires verb == "d" || verb == "delete"
    requires w.answers.checkbox == Cancelled
    ensures var t := Dispatch(Some(verb), w);
      && t.updates == []
      && (t.prompts != [] ==> t.end == Returned)
  {
    DispatchDelete(verb, w);
  }

  /**
   * Declining or interrupting the confirmation of `delete` or `delete-merged`
   * ends the run normally and deletes nothing.
   */
  lemma NotConfirmed(verb: string, w: World)
    requires verb in ["d", "delete", "dm", "delete-merged"]
    requires w.answers.confirm != Given(true)
    ensures var t := Dispatch(Some(verb), w);
      && t.updates == []
      && ((exists p :: p in t.prompts && p.Confirm?) ==> t.end == Returned)
  {
    if verb == "d" || verb == "delete" {
      DispatchDelete(verb, w);
    } else {
      DispatchDeleteMerged(verb, w);
    }
  }
}
