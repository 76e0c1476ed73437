/**
  Properties of the installation engine across whole runs: answers settle conflicts in
  order, committing decisions changes the files exactly as a plain fold over the file map
  says, installing twice leaves everything identical, uninstalling removes exactly the
  outputs that exist, and the entity name is normalized before the locals are computed.
*/
module InstallProperties {
  import opened Wrappers
  import Assoc
  import opened JsValues
  import opened Context
  import opened Locals
  import opened Blueprints
  import opened FileTree
  import opened Engine

  // ---------------------------------------------------------------- prompts

  /** The number of outputs that conflict with what the tree holds. */
  function Conflicts(t: Tree, plan: seq<FileInfo>): (n: nat)
    ensures n <= |plan|
  {
    if |plan| == 0 then 0
    else (if Classify(t, plan[0]) == Confirm then 1 else 0) + Conflicts(t, plan[1..])
  }

  /** Counting the conflicts of a prefix one output at a time. */
  lemma ConflictsPrefix(t: Tree, plan: seq<FileInfo>, i: nat)
    requires 0 < i <= |plan|
    ensures Conflicts(t, plan[..i]) == (if Classify(t, plan[0]) == Confirm then 1 else 0) + Conflicts(t, plan[1..][..i - 1])
  {
    assert plan[..i][1..] == plan[1..][..i - 1];
  }

  /** The conflicts of a prefix are at most those of the whole plan, fewer when the prefix
      stops before a conflict. */
  lemma {:induction false} ConflictsPrefixBound(t: Tree, plan: seq<FileInfo>, i: nat)
    requires i < |plan|
    ensures Conflicts(t, plan[..i]) + (if Classify(t, plan[i]) == Confirm then 1 else 0) <= Conflicts(t, plan)
  {
    if i == 0 {
      assert plan[..0] == [];
    } else {
      ConflictsPrefix(t, plan, i);
      ConflictsPrefixBound(t, plan[1..], i - 1);
    }
  }

  /** With answers that never ask for a diff, the confirmation pass succeeds exactly when
      there are as many answers as conflicts, and then consumes one answer per conflict. */
  lemma {:induction false} DecideAnswersCount(t: Tree, plan: seq<FileInfo>, answers: seq<string>)
    requires forall j :: 0 <= j < |answers| ==> answers[j] != "diff"
    ensures Decide(t, plan, answers).Success? <==> Conflicts(t, plan) <= |answers|
    ensures Decide(t, plan, answers).Success? ==> Decide(t, plan, answers).value.1 == Conflicts(t, plan)
  {
    if |plan| > 0 {
      if Classify(t, plan[0]) == Confirm {
        if |answers| > 0 {
          assert Ask(answers) == Some(0);
          var rest := answers[1..];
          assert forall j :: 0 <= j < |rest| ==> rest[j] == answers[j + 1];
          DecideAnswersCount(t, plan[1..], rest);
        } else {
          assert Ask(answers) == None;
        }
      } else {
        DecideAnswersCount(t, plan[1..], answers);
      }
    }
  }

  /**
    With answers that never ask for a diff, every conflict consumes exactly one answer, in
    plan order: the confirmation pass succeeds exactly when there are enough answers, and the
    conflict preceded by `k` others takes the answer at position `k`.
  */
  lemma {:induction false} DecideAnswersInOrder(t: Tree, plan: seq<FileInfo>, answers: seq<string>)
    requires forall j :: 0 <= j < |answers| ==> answers[j] != "diff"
    ensures Decide(t, plan, answers).Success? <==> Conflicts(t, plan) <= |answers|
    ensures Decide(t, plan, answers).Success? ==> Decide(t, plan, answers).value.1 == Conflicts(t, plan)
    ensures Decide(t, plan, answers).Success? ==> forall i :: 0 <= i < |plan| && Classify(t, plan[i]) == Confirm ==>
      Conflicts(t, plan[..i]) < |answers| && Decide(t, plan, answers).value.0[i].action == answers[Conflicts(t, plan[..i])]
  {
    DecideAnswersCount(t, plan, answers);
    var r := Decide(t, plan, answers);
    if |plan| > 0 && r.Success? {
      if Classify(t, plan[0]) == Confirm {
        assert |answers| > 0;
        assert Ask(answers) == Some(0);
        var rest := answers[1..];
        assert forall j :: 0 <= j < |rest| ==> rest[j] == answers[j + 1];
        DecideAnswersInOrder(t, plan[1..], rest);
        var ds := Decide(t, plan[1..], rest).value.0;
        assert r.value.0 == [Decision(plan[0], Confirm, answers[0])] + ds;
        OrderAfterConflict(t, plan, answers, ds);
      } else {
        DecideAnswersInOrder(t, plan[1..], answers);
        var ds := Decide(t, plan[1..], answers).value.0;
        assert r.value.0 == [r.value.0[0]] + ds;
        OrderAfterOther(t, plan, answers, r.value.0[0], ds);
      }
    }
  }

  /** A conflict at the head takes the first answer and shifts every later conflict's
      answer by one. */
  lemma OrderAfterConflict(t: Tree, plan: seq<FileInfo>, answers: seq<string>, ds: seq<Decision>)
    requires |plan| > 0 && |answers| > 0 && Classify(t, plan[0]) == Confirm && |ds| == |plan| - 1
    requires forall i :: 0 <= i < |plan| - 1 && Classify(t, plan[1..][i]) == Confirm ==>
      Conflicts(t, plan[1..][..i]) < |answers| - 1 && ds[i].action == answers[1..][Conflicts(t, plan[1..][..i])]
    ensures forall i :: 0 <= i < |plan| && Classify(t, plan[i]) == Confirm ==>
      Conflicts(t, plan[..i]) < |answers| && ([Decision(plan[0], Confirm, answers[0])] + ds)[i].action == answers[Conflicts(t, plan[..i])]
  {
    var all := [Decision(plan[0], Confirm, answers[0])] + ds;
    forall i | 0 <= i < |plan| && Classify(t, plan[i]) == Confirm
      ensures Conflicts(t, plan[..i]) < |answers| && all[i].action == answers[Conflicts(t, plan[..i])]
    {
      if i == 0 {
        assert plan[..0] == [];
      } else {
        ConflictsPrefix(t, plan, i);
        assert plan[1..][i - 1] == plan[i];
        assert all[i] == ds[i - 1];
      }
    }
  }

  /** An output at the head that is not a conflict takes no answer and leaves every later
      conflict's answer where it was. */
  lemma OrderAfterOther(t: Tree, plan: seq<FileInfo>, answers: seq<string>, d: Decision, ds: seq<Decision>)
    requires |plan| > 0 && Classify(t, plan[0]) != Confirm && |ds| == |plan| - 1
    requires forall i :: 0 <= i < |plan| - 1 && Classify(t, plan[1..][i]) == Confirm ==>
      Conflicts(t, plan[1..][..i]) < |answers| && ds[i].action == answers[Conflicts(t, plan[1..][..i])]
    ensures forall i :: 0 <= i < |plan| && Classify(t, plan[i]) == Confirm ==>
      Conflicts(t, plan[..i]) < |answers| && ([d] + ds)[i].action == answers[Conflicts(t, plan[..i])]
  {
    var all := [d] + ds;
    forall i | 0 <= i < |plan| && Classify(t, plan[i]) == Confirm
      ensures Conflicts(t, plan[..i]) < |answers| && all[i].action == answers[Conflicts(t, plan[..i])]
    {
      ConflictsPrefix(t, plan, i);
      assert plan[1..][i - 1] == plan[i];
      assert all[i] == ds[i - 1];
    }
  }

  /** Without conflicts nothing is asked: the pass succeeds whatever the answers and consumes
      none of them. */
  lemma {:induction false} DecideWithoutConflicts(t: Tree, plan: seq<FileInfo>, answers: seq<string>)
    requires Conflicts(t, plan) == 0
    ensures Decide(t, plan, answers).Success? && Decide(t, plan, answers).value.1 == 0
  {
    if |plan| > 0 {
      DecideWithoutConflicts(t, plan[1..], answers);
    }
  }

  // ---------------------------------------------------------------- commits

  /** Whether an action string writes the output. */
  predicate Writes(action: string) {
    action == "write" || action == "overwrite"
  }

  /**
    The reference for what committing does to file contents: write and overwrite store the
    output, remove deletes it, anything else leaves the map alone, one decision after another.
  */
  function Expected(files: map<Path, string>, ds: seq<Decision>): map<Path, string>
    decreases |ds|
  {
    if |ds| == 0 then files
    else
      var out := OutputOf(ds[0].info);
      var next :=
        if Writes(ds[0].action) then files[out := ds[0].info.content]
        else if ds[0].action == "remove" then files - {out}
        else files;
      Expected(next, ds[1..])
  }

  /** A successful commit of real (not dry-run) decisions changes the files exactly as the
      reference fold says, and keeps the tree well formed. */
  lemma {:induction false} CommitMatchesExpected(env: Env, t: Tree, ds: seq<Decision>)
    requires Valid(t)
    requires CommitAll(env, t, false, ds).Success?
    ensures CommitAll(env, t, false, ds).value.0.files == Expected(t.files, ds)
    ensures Valid(CommitAll(env, t, false, ds).value.0)
    decreases |ds|
  {
    if |ds| > 0 {
      CommitStepExpected(env, t, ds[0]);
      CommitMatchesExpected(env, Commit(env, t, false, ds[0]).value.0, ds[1..]);
    }
  }

  /** One successful commit does to the files what one step of `Expected` does. */
  lemma CommitStepExpected(env: Env, t: Tree, d: Decision)
    requires Valid(t) && Commit(env, t, false, d).Success?
    ensures Commit(env, t, false, d).value.0.files == Expected(t.files, [d])
    ensures Valid(Commit(env, t, false, d).value.0)
  {
    var t1 := Commit(env, t, false, d).value.0;
    var out := OutputOf(d.info);
    var a := ActionNamed(d.action).value;
    if a == Remove {
      CleanRemoveValid(t, out);
      if out in t.files {
        CleanRemoveSpec(t, out);
      } else {
        assert t.files - {out} == t.files;
      }
    } else if a == Write || a == Overwrite {
      assert t1 == WriteFile(t, out, d.info.content).value;
    }
    assert [d][1..] == [];
  }

  /** Every output path of the decisions. */
  function Outputs(ds: seq<Decision>): set<Path> {
    set d | d in ds :: OutputOf(d.info)
  }

  predicate DistinctOutputs(ds: seq<Decision>) {
    forall i, j :: 0 <= i < j < |ds| ==> OutputOf(ds[i].info) != OutputOf(ds[j].info)
  }

  /** Paths that no decision touches keep what they held. */
  lemma {:induction false} ExpectedElsewhere(files: map<Path, string>, ds: seq<Decision>, p: Path)
    requires p !in Outputs(ds)
    ensures (p in Expected(files, ds) <==> p in files)
    ensures p in files ==> Expected(files, ds)[p] == files[p]
    decreases |ds|
  {
    if |ds| > 0 {
      assert OutputOf(ds[0].info) in Outputs(ds);
      assert Outputs(ds[1..]) <= Outputs(ds);
      var out := OutputOf(ds[0].info);
      var next :=
        if Writes(ds[0].action) then files[out := ds[0].info.content]
        else if ds[0].action == "remove" then files - {out}
        else files;
      ExpectedElsewhere(next, ds[1..], p);
    }
  }

  /** With distinct outputs, each output ends up as its own decision left it. */
  lemma {:induction false} ExpectedAt(files: map<Path, string>, ds: seq<Decision>, i: nat)
    requires i < |ds| && DistinctOutputs(ds)
    ensures var out := OutputOf(ds[i].info);
      && (Writes(ds[i].action) ==> out in Expected(files, ds) && Expected(files, ds)[out] == ds[i].info.content)
      && (ds[i].action == "remove" ==> out !in Expected(files, ds))
      && (!Writes(ds[i].action) && ds[i].action != "remove" ==>
            (out in Expected(files, ds) <==> out in files)
            && (out in files ==> Expected(files, ds)[out] == files[out]))
    decreases |ds|
  {
    var out := OutputOf(ds[0].info);
    var next :=
      if Writes(ds[0].action) then files[out := ds[0].info.content]
      else if ds[0].action == "remove" then files - {out}
      else files;
    if i == 0 {
      assert out !in Outputs(ds[1..]) by {
        forall d | d in ds[1..] ensures OutputOf(d.info) != out {
          var j :| 0 <= j < |ds[1..]| && ds[1..][j] == d;
          assert ds[j + 1] == d;
        }
      }
      ExpectedElsewhere(next, ds[1..], out);
    } else {
      assert ds[1..][i - 1] == ds[i];
      ExpectedAt(next, ds[1..], i - 1);
    }
  }

  /** Skipping everything commits without touching the tree. */
  lemma {:induction false} CommitSkips(env: Env, t: Tree, dryRun: bool, ds: seq<Decision>)
    requires Skip in env.actions
    requires forall i :: 0 <= i < |ds| ==> ds[i].action == "skip"
    ensures CommitAll(env, t, dryRun, ds).Success? && CommitAll(env, t, dryRun, ds).value.0 == t
    decreases |ds|
  {
    if |ds| > 0 {
      assert ActionNamed(ds[0].action) == Some(Skip);
      CommitSkips(env, t, dryRun, ds[1..]);
    }
  }

  /**
    Writing over files that already exist never fails in a well-formed tree, and keeps the
    set of files as it was.
  */
  lemma {:induction false} CommitOverExisting(env: Env, t: Tree, ds: seq<Decision>)
    requires Valid(t)
    requires forall i :: 0 <= i < |ds| ==> Dispatchable(env, ds[i]) && ds[i].action != "remove"
    requires forall i :: 0 <= i < |ds| ==> OutputOf(ds[i].info) in t.files
    ensures CommitAll(env, t, false, ds).Success?
    ensures CommitAll(env, t, false, ds).value.0.files.Keys == t.files.Keys
    decreases |ds|
  {
    if |ds| > 0 {
      CommitOverOne(env, t, ds[0]);
      CommitOverExisting(env, Commit(env, t, false, ds[0]).value.0, ds[1..]);
    }
  }

  /** One such commit over an existing file succeeds and keeps the tree's files and validity. */
  lemma CommitOverOne(env: Env, t: Tree, d: Decision)
    requires Valid(t) && Dispatchable(env, d) && d.action != "remove" && OutputOf(d.info) in t.files
    ensures Commit(env, t, false, d).Success?
    ensures Commit(env, t, false, d).value.0.files.Keys == t.files.Keys
    ensures Valid(Commit(env, t, false, d).value.0)
  {
    var out := OutputOf(d.info);
    assert out !in t.dirs;
    assert !ThroughFile(t, out) by {
      forall i | 0 < i < |out| ensures out[..i] !in t.files {
        assert out[..i] in t.dirs;
      }
    }
  }

  // ---------------------------------------------------------------- conflicts

  /** Over outputs that all exist, with answers among `skip` and `overwrite`, every decision
      is one the table dispatches and none removes anything. */
  lemma ConflictDecisions(env: Env, t: Tree, plan: seq<FileInfo>, answers: seq<string>)
    requires Skip in env.actions && Overwrite in env.actions
    requires forall i :: 0 <= i < |plan| ==> OutputOf(plan[i]) in t.files
    requires forall j :: 0 <= j < |answers| ==> answers[j] == "skip" || answers[j] == "overwrite"
    requires Conflicts(t, plan) <= |answers|
    ensures Decide(t, plan, answers).Success?
    ensures forall i :: 0 <= i < |plan| ==>
      Dispatchable(env, Decide(t, plan, answers).value.0[i]) && Decide(t, plan, answers).value.0[i].action != "remove"
  {
    DecideAnswersInOrder(t, plan, answers);
    var ds := Decide(t, plan, answers).value.0;
    forall i | 0 <= i < |ds| ensures Dispatchable(env, ds[i]) && ds[i].action != "remove" {
      if Classify(t, plan[i]) == Confirm {
        ConflictsPrefixBound(t, plan, i);
        assert ds[i].action == answers[Conflicts(t, plan[..i])];
      } else {
        assert ds[i].action == "skip";
      }
    }
  }

  /**
    Installing over outputs that all exist already: each conflict is asked about once and in
    order, no file appears or disappears, an output the answer overwrites takes the new
    contents, and every other output keeps the old ones.
  */
  lemma ConflictsSettledByAnswers(env: Env, t: Tree, plan: seq<FileInfo>, answers: seq<string>)
    requires Valid(t)
    requires Skip in env.actions && Overwrite in env.actions
    requires forall i :: 0 <= i < |plan| ==> OutputOf(plan[i]) in t.files
    requires forall i, j :: 0 <= i < j < |plan| ==> OutputOf(plan[i]) != OutputOf(plan[j])
    requires forall j :: 0 <= j < |answers| ==> answers[j] == "skip" || answers[j] == "overwrite"
    requires Conflicts(t, plan) <= |answers|
    ensures Decide(t, plan, answers).Success? && Decide(t, plan, answers).value.1 == Conflicts(t, plan)
    ensures CommitAll(env, t, false, Decide(t, plan, answers).value.0).Success?
    ensures CommitAll(env, t, false, Decide(t, plan, answers).value.0).value.0.files.Keys == t.files.Keys
    ensures forall i :: 0 <= i < |plan| ==>
      CommitAll(env, t, false, Decide(t, plan, answers).value.0).value.0.files[OutputOf(plan[i])] ==
        if Classify(t, plan[i]) == Confirm && Conflicts(t, plan[..i]) < |answers| && answers[Conflicts(t, plan[..i])] == "overwrite"
        then plan[i].content else t.files[OutputOf(plan[i])]
  {
    DecideAnswersInOrder(t, plan, answers);
    ConflictDecisions(env, t, plan, answers);
    var ds := Decide(t, plan, answers).value.0;
    CommitOverExisting(env, t, ds);
    CommitMatchesExpected(env, t, ds);
    assert DistinctOutputs(ds);
    forall i | 0 <= i < |plan| ensures
      CommitAll(env, t, false, ds).value.0.files[OutputOf(plan[i])] ==
        if Classify(t, plan[i]) == Confirm && Conflicts(t, plan[..i]) < |answers| && answers[Conflicts(t, plan[..i])] == "overwrite"
        then plan[i].content else t.files[OutputOf(plan[i])]
    {
      ExpectedAt(t.files, ds, i);
      if Classify(t, plan[i]) == Confirm {
        ConflictsPrefixBound(t, plan, i);
      }
    }
  }

  // ---------------------------------------------------------------- whole installs

  /** One log line per output, in plan order, each with the same tag (`create`,
      `identical`). */
  function TagLines(tag: string, plan: seq<FileInfo>): (r: seq<LogLine>)
    ensures |r| == |plan| && forall i :: 0 <= i < |plan| ==> r[i] == Line(tag, plan[i].display)
  {
    seq(|plan|, i requires 0 <= i < |plan| => Line(tag, plan[i].display))
  }

  /** A blueprint whose `beforeInstall` neither creates directories nor installs another. */
  predicate SelfContained(p: Prepared) {
    p.effect.delegate.None? && p.effect.mkdirs == []
  }

  /** A fresh plan: none of the outputs exists, and no two share a path. */
  predicate FreshPlan(t: Tree, plan: seq<FileInfo>) {
    && (forall i :: 0 <= i < |plan| ==> OutputOf(plan[i]) !in t.files)
    && (forall i, j :: 0 <= i < j < |plan| ==> OutputOf(plan[i]) != OutputOf(plan[j]))
  }

  /** For a self-contained blueprint, `install` is the completion over the tree as given. */
  lemma InstallSelfContained(env: Env, bp: Blueprint, options: Options, t: Tree, answers: seq<string>, fuel: nat)
    requires Prepare(env, bp, options).Success? && SelfContained(Prepare(env, bp, options).value)
    ensures Install(env, bp, options, t, answers, fuel)
      == Complete(env, bp, Prepare(env, bp, options).value, Outcome(t, [], 0, []), answers)
  {
    assert MkdirsAll(t, []) == Success(t);
  }

  /** Outputs absent from the tree are all new, so none conflicts. */
  lemma {:induction false} NoConflictsWhenFresh(t: Tree, plan: seq<FileInfo>)
    requires forall i :: 0 <= i < |plan| ==> OutputOf(plan[i]) !in t.files
    ensures Conflicts(t, plan) == 0
  {
    if |plan| > 0 {
      NoConflictsWhenFresh(t, plan[1..]);
    }
  }

  /** Outputs holding exactly what would be written are all identical, so none conflicts. */
  lemma {:induction false} NoConflictsWhenIdentical(t: Tree, plan: seq<FileInfo>)
    requires forall i :: 0 <= i < |plan| ==> Classify(t, plan[i]) == Identical
    ensures Conflicts(t, plan) == 0
  {
    if |plan| > 0 {
      NoConflictsWhenIdentical(t, plan[1..]);
    }
  }

  /** Committing what was decided for a fresh tree writes every output and logs one
      `create` line for each. */
  lemma FreshCommit(env: Env, t: Tree, plan: seq<FileInfo>, answers: seq<string>)
    requires Valid(t) && FreshPlan(t, plan)
    requires Decide(t, plan, answers).Success?
    requires CommitAll(env, t, false, Decide(t, plan, answers).value.0).Success?
    ensures var c := CommitAll(env, t, false, Decide(t, plan, answers).value.0).value;
      && c.1 == TagLines("create", plan)
      && Valid(c.0)
      && forall i :: 0 <= i < |plan| ==> OutputOf(plan[i]) in c.0.files && c.0.files[OutputOf(plan[i])] == plan[i].content
  {
    NoConflictsWhenFresh(t, plan);
    var ds := Decide(t, plan, answers).value.0;
    CommitMatchesExpected(env, t, ds);
    assert DistinctOutputs(ds);
    forall i | 0 <= i < |plan| ensures OutputOf(plan[i]) in Expected(t.files, ds)
      && Expected(t.files, ds)[OutputOf(plan[i])] == plan[i].content
    {
      ExpectedAt(t.files, ds, i);
    }
    assert CommitAll(env, t, false, ds).value.1 == TagLines("create", plan);
  }

  /** A completion from an empty outcome is the decisions for the plan, committed, after the
      `installing` line; the answers consumed are the decisions' count. */
  lemma CompleteFromScratch(env: Env, bp: Blueprint, p: Prepared, t: Tree, answers: seq<string>)
    requires Complete(env, bp, p, Outcome(t, [], 0, []), answers).Success?
    ensures Decide(t, p.plan, answers).Success?
    ensures CommitAll(env, t, p.options.dryRun, Decide(t, p.plan, answers).value.0).Success?
    ensures var o := Complete(env, bp, p, Outcome(t, [], 0, []), answers).value;
      var c := CommitAll(env, t, p.options.dryRun, Decide(t, p.plan, answers).value.0).value;
      && o.tree == c.0
      && o.log == [Installing(bp.name)] + c.1
      && o.prompts == Decide(t, p.plan, answers).value.1
  {
    assert answers[0..] == answers;
    var c := CommitAll(env, t, p.options.dryRun, Decide(t, p.plan, answers).value.0).value;
    assert [Installing(bp.name)] + [] + c.1 == [Installing(bp.name)] + c.1;
  }

  /** Into a fresh tree every output is written, one `create` line each, and nothing asked. */
  lemma CompleteFresh(env: Env, bp: Blueprint, p: Prepared, t: Tree, answers: seq<string>)
    requires Valid(t) && !p.options.dryRun && FreshPlan(t, p.plan)
    requires Complete(env, bp, p, Outcome(t, [], 0, []), answers).Success?
    ensures var o := Complete(env, bp, p, Outcome(t, [], 0, []), answers).value;
      && o.prompts == 0
      && o.log == [Installing(bp.name)] + TagLines("create", p.plan)
      && Valid(o.tree)
      && forall i :: 0 <= i < |p.plan| ==> OutputOf(p.plan[i]) in o.tree.files && o.tree.files[OutputOf(p.plan[i])] == p.plan[i].content
  {
    CompleteFromScratch(env, bp, p, t, answers);
    NoConflictsWhenFresh(t, p.plan);
    DecideWithoutConflicts(t, p.plan, answers);
    FreshCommit(env, t, p.plan, answers);
  }

  /** Over outputs that all hold what would be written, everything is skipped as identical. */
  lemma CompleteIdentical(env: Env, bp: Blueprint, p: Prepared, t: Tree, answers: seq<string>)
    requires Skip in env.actions && bp.afterInstall(p.options).Success?
    requires forall i :: 0 <= i < |p.plan| ==> Classify(t, p.plan[i]) == Identical
    ensures var r := Complete(env, bp, p, Outcome(t, [], 0, []), answers);
      && r.Success?
      && r.value.tree == t
      && r.value.prompts == 0
      && r.value.log == [Installing(bp.name)] + TagLines("identical", p.plan)
  {
    assert answers[0..] == answers;
    NoConflictsWhenIdentical(t, p.plan);
    DecideWithoutConflicts(t, p.plan, answers);
    var ds := Decide(t, p.plan, answers).value.0;
    CommitSkips(env, t, p.options.dryRun, ds);
    CompleteFromScratch(env, bp, p, t, answers);
    assert CommitAll(env, t, p.options.dryRun, ds).value.1 == TagLines("identical", p.plan);
  }

  /**
    Installing into a tree that holds none of the outputs asks nothing, logs `create` for
    each output in order, and leaves each output holding its rendered contents.
  */
  lemma FreshInstall(env: Env, bp: Blueprint, options: Options, t: Tree, answers: seq<string>, fuel: nat)
    requires Valid(t) && !options.dryRun
    requires Prepare(env, bp, options).Success? && SelfContained(Prepare(env, bp, options).value)
    requires FreshPlan(t, Prepare(env, bp, options).value.plan)
    requires Install(env, bp, options, t, answers, fuel).Success?
    ensures var plan := Prepare(env, bp, options).value.plan;
      var o := Install(env, bp, options, t, answers, fuel).value;
      && o.prompts == 0
      && o.log == [Installing(bp.name)] + TagLines("create", plan)
      && Valid(o.tree)
      && forall i :: 0 <= i < |plan| ==> OutputOf(plan[i]) in o.tree.files && o.tree.files[OutputOf(plan[i])] == plan[i].content
  {
    InstallSelfContained(env, bp, options, t, answers, fuel);
    CompleteFresh(env, bp, Prepare(env, bp, options).value, t, answers);
  }

  /**
    Installing the same blueprint again with the same options into the tree a fresh install
    left asks nothing, logs `identical` for every output and changes nothing.
  */
  lemma ReinstallIsIdentical(env: Env, bp: Blueprint, options: Options, t: Tree, answers: seq<string>, again: seq<string>, fuel: nat)
    requires Valid(t) && !options.dryRun && Skip in env.actions
    requires Prepare(env, bp, options).Success? && SelfContained(Prepare(env, bp, options).value)
    requires FreshPlan(t, Prepare(env, bp, options).value.plan)
    requires Install(env, bp, options, t, answers, fuel).Success?
    ensures var first := Install(env, bp, options, t, answers, fuel).value;
      var second := Install(env, bp, options, first.tree, again, fuel);
      && second.Success?
      && second.value.tree == first.tree
      && second.value.prompts == 0
      && second.value.log == [Installing(bp.name)] + TagLines("identical", Prepare(env, bp, options).value.plan)
  {
    var p := Prepare(env, bp, options).value;
    InstallSelfContained(env, bp, options, t, answers, fuel);
    CompleteFresh(env, bp, p, t, answers);
    var t1 := Install(env, bp, options, t, answers, fuel).value.tree;
    InstallSelfContained(env, bp, options, t1, again, fuel);
    CompleteIdentical(env, bp, p, t1, again);
  }

  // ---------------------------------------------------------------- uninstall

  /** The output paths of a plan. */
  function PlanOutputs(plan: seq<FileInfo>): set<Path> {
    set info | info in plan :: OutputOf(info)
  }

  /** The outputs of a non-empty decision list split into the first one's and the rest's. */
  lemma OutputsCons(ds: seq<Decision>)
    requires |ds| > 0
    ensures Outputs(ds) == {OutputOf(ds[0].info)} + Outputs(ds[1..])
  {
    forall d | d in ds ensures d == ds[0] || d in ds[1..] {
      var j :| 0 <= j < |ds| && ds[j] == d;
      if j > 0 { assert ds[1..][j - 1] == d; }
    }
  }

  /** One removal succeeds, keeps the tree valid and deletes exactly its output. */
  lemma CommitRemoval(env: Env, t: Tree, d: Decision)
    requires Valid(t) && Remove in env.actions && d.action == "remove"
    ensures Commit(env, t, false, d).Success?
    ensures Valid(Commit(env, t, false, d).value.0)
    ensures Commit(env, t, false, d).value.0.files.Keys == t.files.Keys - {OutputOf(d.info)}
  {
    assert ActionNamed(d.action) == Some(Remove);
    var out := OutputOf(d.info);
    CleanRemoveValid(t, out);
    if out in t.files {
      CleanRemoveSpec(t, out);
    }
  }

  /** Removals, one after another, never fail, and delete exactly their outputs. */
  lemma {:induction false} CommitRemovals(env: Env, t: Tree, ds: seq<Decision>)
    requires Valid(t) && Remove in env.actions
    requires forall i :: 0 <= i < |ds| ==> ds[i].action == "remove"
    ensures CommitAll(env, t, false, ds).Success?
    ensures CommitAll(env, t, false, ds).value.0.files.Keys == t.files.Keys - Outputs(ds)
    decreases |ds|
  {
    if |ds| > 0 {
      CommitRemoval(env, t, ds[0]);
      var t1 := Commit(env, t, false, ds[0]).value.0;
      CommitRemovals(env, t1, ds[1..]);
      OutputsCons(ds);
    }
  }

  /** Removing what `Removals` chose takes away exactly the plan's outputs. */
  lemma RemovalsCoverPlan(t: Tree, plan: seq<FileInfo>)
    ensures t.files.Keys - Outputs(Removals(t, plan)) == t.files.Keys - PlanOutputs(plan)
  {
    var ds := Removals(t, plan);
    forall p | p in t.files.Keys && p in PlanOutputs(plan) ensures p in Outputs(ds) {
      var info :| info in plan && OutputOf(info) == p;
      assert Decision(info, Confirm, "remove") in ds;
    }
  }

  /**
    `uninstall` outside a dry run removes every template output that exists and nothing
    else: the files left are exactly the ones that are not outputs of the blueprint.
  */
  lemma UninstallRemovesOutputs(env: Env, bp: Blueprint, options: Options, t: Tree)
    requires Valid(t) && !options.dryRun && Remove in env.actions
    requires UninstallPlan(env, bp, options).Success?
    ensures Uninstall(env, bp, options, t).Success?
    ensures Uninstall(env, bp, options, t).value.tree.files.Keys
      == t.files.Keys - PlanOutputs(UninstallPlan(env, bp, options).value)
  {
    var plan := UninstallPlan(env, bp, options).value;
    CommitRemovals(env, t, Removals(t, plan));
    RemovalsCoverPlan(t, plan);
  }

  /** Nothing to remove from an empty tree. */
  lemma {:induction false} NothingToRemove(plan: seq<FileInfo>, env: Env, dryRun: bool)
    ensures Removals(Tree(map[], {}), plan) == []
    ensures CommitAll(env, Tree(map[], {}), dryRun, []) == Success((Tree(map[], {}), []))
  {
    if |plan| > 0 {
      NothingToRemove(plan[1..], env, dryRun);
    }
  }

  /** Uninstalling from a tree with nothing in it succeeds and logs only its heading. */
  lemma UninstallWithoutInstall(env: Env, bp: Blueprint, options: Options)
    requires UninstallPlan(env, bp, options).Success?
    ensures Uninstall(env, bp, options, Tree(map[], {})) == Success(Outcome(Tree(map[], {}), [Uninstalling(bp.name)], 0, []))
  {
    NothingToRemove(UninstallPlan(env, bp, options).value, env, options.dryRun);
    assert [Uninstalling(bp.name)] + [] == [Uninstalling(bp.name)];
  }

  // ---------------------------------------------------------------- hooks and errors

  /**
    `normalizeEntityName` runs before the locals: the blueprint's `locals` hook receives the
    normalized name, and unless it overrides `dasherizedModuleName` that local is derived
    from the normalized name.
  */
  lemma NormalizedNameReachesLocals(env: Env, bp: Blueprint, options: Options, n: Option<string>, m: string)
    requires options.entity == Some(Entity(n))
    requires bp.normalizeEntityName(n) == Success(Some(m)) && m != ""
    requires Prepare(env, bp, options).Success?
    ensures var p := Prepare(env, bp, options).value;
      && p.options.entity == Some(Entity(Some(m)))
      && bp.locals(p.options).Success?
      && (Assoc.Lookup(bp.locals(p.options).value, "dasherizedModuleName").None? ==>
            Assoc.Lookup(p.locals, "dasherizedModuleName") == Some(Str(env.inf.dasherize(m))))
  {
    var p := Prepare(env, bp, options).value;
    assert ModuleName(p.options) == m;
    LocalsFollowModuleName(env, bp, p.options, p.locals);
  }

  /** Unless a blueprint overrides it, `dasherizedModuleName` is the dasherized module name
      of the options the locals were computed from. */
  lemma LocalsFollowModuleName(env: Env, bp: Blueprint, opts: Options, locals: Context.Locals)
    requires LocalsOf(env, bp, opts) == Success(locals)
    ensures bp.locals(opts).Success?
    ensures Assoc.Lookup(bp.locals(opts).value, "dasherizedModuleName").None? ==>
      Assoc.Lookup(locals, "dasherizedModuleName") == Some(Str(env.inf.dasherize(ModuleName(opts))))
  {
    var custom := bp.locals(opts).value;
    var b := LocalsInputs(bp.name, Some(HasPathToken(bp.files(opts.project))), bp.tokens);
    var fm := InstallFileMap(env.inf, b, custom, opts);
    StandardLocalAt(env.inf, opts.project.name, ModuleName(opts), fm, 2);
    StandardLocalsLookup(env.inf, opts.project.name, ModuleName(opts), fm);
  }

  /** A normalization failure stops the installation before anything else happens. */
  lemma NormalizeFailureStopsInstall(env: Env, bp: Blueprint, options: Options, t: Tree, answers: seq<string>, fuel: nat, e: Error)
    requires options.entity.Some? && bp.normalizeEntityName(options.entity.value.name) == Failure(e)
    ensures Install(env, bp, options, t, answers, fuel) == Failure(e)
  {
  }

  /** An empty action table makes the first new output fail with the missing-action error,
      before the tree changes. */
  lemma MissingWriteAction(env: Env, bp: Blueprint, options: Options, t: Tree, answers: seq<string>, fuel: nat)
    requires env.actions == {}
    requires Prepare(env, bp, options).Success? && SelfContained(Prepare(env, bp, options).value)
    requires var plan := Prepare(env, bp, options).value.plan;
      |plan| > 0 && forall i :: 0 <= i < |plan| ==> OutputOf(plan[i]) !in t.files
    ensures Install(env, bp, options, t, answers, fuel) == Failure(Error(PlainError, MissingActionMessage("write")))
  {
    var p := Prepare(env, bp, options).value;
    NoConflictsWhenFresh(t, p.plan);
    DecideWithoutConflicts(t, p.plan, answers);
    var ds := Decide(t, p.plan, answers).value.0;
    assert ds[0].action == "write";
    assert !Dispatchable(env, ds[0]);
  }
}
