/** `ErrorFixer`: the state it keeps across cycles (`seen_errors`,
    `fixed_errors`, `iteration`), the scans that fill `seen_errors`, the
    dispatch of each new error to a remediation strategy, and the outer loop
    with its termination rule. Log files, the browser, `npm`, the health
    probes and the file system are inputs (`AppLog`, `RuntimeEntry`, `Env`,
    `Project`, a boolean). */
module Fixer {
  import opened Common
  import opened Text
  import opened Strategies
  import opened Fingerprints

  /** The files the fixes read and write: each frontend app's `tsconfig.json`
      text, and source files, by resolved path, as lists of lines. */
  datatype Project = Project(tsconfigs: map<string, string>, sources: map<string, seq<string>>)

  /** A resolved source file: its path and its `Path.parts`. */
  datatype Located = Located(path: string, parts: seq<string>)

  /** What the fixer learns from outside: whether `npm install <module>` in
      an app's directory succeeds, and where (if anywhere) a reported file
      resolves for an app. */
  datatype Env = Env(npmInstall: (string, string) -> bool, locate: (string, string) -> Option<Located>)

  /** A strategy either declines (returns False) or applies, leaving the
      project as written and the id it adds to `fixed_errors`. */
  datatype Outcome = Declined | Fixed(project: Project, fixedId: string)

  const FixableCodes: set<string> := {"TS2307", "TS7006", "TS2339", "TS2345"}

  /** The line rewrite `fix_typescript_error` dispatches to for a code, if any. */
  function LineFix(code: string, message: string, parts: seq<string>): (f: Option<string -> Option<string>>)
    ensures f.Some? <==> code in FixableCodes
  {
    if code == "TS2307" then Some(t => FixImportLine(t, SrcDepth(parts)))
    else if code == "TS7006" then Some(t => FixImplicitAnyLine(t, message))
    else if code == "TS2339" then Some(t => FixPropertyLine(t, message))
    else if code == "TS2345" then Some(t => FixCastLine(t))
    else None
  }

  /** The project after one source file was replaced. */
  function WithSource(p: Project, path: string, lines: seq<string>): Project {
    p.(sources := p.sources[path := lines])
  }

  /** `fix_typescript_error`: resolve the file, then rewrite the reported line
      with the strategy for the code. It declines when the file cannot be
      located or read, when the code has no strategy, when the line number is
      past the end of the file, and when the strategy declines; on success
      only that one line of that one file changes, and the recorded id is
      `<resolved path>:<line>:<code>`. */
  function FixTypescriptError(e: ErrorRecord, p: Project, env: Env): (r: Outcome)
    requires e.Typescript?
    ensures e.code !in FixableCodes ==> r.Declined?
    ensures env.locate(e.app, e.file).None? ==> r.Declined?
    ensures r.Fixed? <==>
      env.locate(e.app, e.file).Some? && env.locate(e.app, e.file).value.path in p.sources &&
      e.code in FixableCodes &&
      EditLine(p.sources[env.locate(e.app, e.file).value.path], e.line,
               LineFix(e.code, e.message, env.locate(e.app, e.file).value.parts).value).Some?
    ensures r.Fixed? ==>
      var loc := env.locate(e.app, e.file).value;
      loc.path in p.sources && loc.path in r.project.sources &&
      e.line <= |p.sources[loc.path]| &&
      r.fixedId == FixedTsId(loc.path, e.line, e.code) &&
      Some(r.project.sources[loc.path]) == EditLine(p.sources[loc.path], e.line, LineFix(e.code, e.message, loc.parts).value) &&
      r.project == WithSource(p, loc.path, r.project.sources[loc.path])
  {
    match env.locate(e.app, e.file)
    case None => Declined
    case Some(loc) =>
      if loc.path !in p.sources then Declined
      else match LineFix(e.code, e.message, loc.parts)
        case None => Declined
        case Some(rewrite) =>
          match EditLine(p.sources[loc.path], e.line, rewrite)
          case None => Declined
          case Some(lines) => Fixed(WithSource(p, loc.path, lines), FixedTsId(loc.path, e.line, e.code))
  }

  /** The dispatch of `run_fix_cycle` on one error. Runtime errors are never
      fixed; a missing module is fixed exactly when `npm install` succeeds; a
      no-emit error exactly when the app's `tsconfig.json` exists and holds
      the flag, which is then gone. */
  function Remediate(e: ErrorRecord, p: Project, env: Env): (r: Outcome)
    ensures e.Runtime? ==> r.Declined?
    ensures e.MissingModuleError? ==>
      (r.Fixed? <==> env.npmInstall(e.app, e.moduleName)) && (r.Fixed? ==> r == Fixed(p, e.id))
    ensures e.TsconfigNoEmit? ==>
      (r.Fixed? <==> e.app in p.tsconfigs && Contains(p.tsconfigs[e.app], NoEmitTrue))
    ensures e.TsconfigNoEmit? && r.Fixed? ==>
      r.fixedId == e.id && r.project.sources == p.sources &&
      r.project.tsconfigs.Keys == p.tsconfigs.Keys &&
      (forall app :: app in p.tsconfigs && app != e.app ==> r.project.tsconfigs[app] == p.tsconfigs[app]) &&
      !Contains(r.project.tsconfigs[e.app], NoEmitTrue) &&
      r.project.tsconfigs[e.app] == ReplaceAll(p.tsconfigs[e.app], NoEmitTrue, NoEmitFalse)
    ensures e.Typescript? ==> r == FixTypescriptError(e, p, env)
    ensures e.Typescript? && e.code !in FixableCodes ==> r.Declined?
  {
    match e
    case Runtime(_, _) => Declined
    case MissingModuleError(app, name, _, id) =>
      if env.npmInstall(app, name) then Fixed(p, id) else Declined
    case TsconfigNoEmit(app, _, id) =>
      if app !in p.tsconfigs then Declined
      else
        var f := FixTsconfig(p.tsconfigs[app]);
        if f.applied then Fixed(p.(tsconfigs := p.tsconfigs[app := f.content]), id) else Declined
    case Typescript(_, _, _, _, _, _, _) => FixTypescriptError(e, p, env)
  }

  // -----------------------------------------------------------------------
  // Restarting a service after a fix
  // -----------------------------------------------------------------------

  /** The short service names of the health probes. */
  const ServiceNames: seq<string> := ["container", "user-management", "data-grid", "analytics", "settings"]

  /** The directory `restart_service` computes from its argument, as written:
      `-app` is appended to every name except `container`. */
  function RestartDirAsWritten(app: string): string {
    if app == "container" then app else app + "-app"
  }

  /** The cycle passes the error's `app`, which is already a directory name,
      so every restart but the container's targets a directory that does not
      exist, such as `data-grid-app-app`. */
  lemma RestartTargetsMissingDirectory()
    ensures RestartDirAsWritten("data-grid-app") == "data-grid-app-app"
    ensures forall app :: app in FrontendApps && app != "container" ==> RestartDirAsWritten(app) !in FrontendApps
  {
  }

  predicate EndsWithApp(s: string) {
    |s| >= 4 && s[|s| - 4..] == "-app"
  }

  /** The directory evidently intended: a directory name is kept, and a short
      service name gains `-app`. */
  function ServiceDir(app: string): (d: string)
    ensures app in FrontendApps ==> d == app
  {
    if app == "container" || EndsWithApp(app) then app else app + "-app"
  }

  /** Under the intended reading both spellings name the same directories:
      each short service name maps to its frontend directory. */
  lemma ServiceNamesReachDirectories()
    ensures forall i :: 0 <= i < |ServiceNames| ==> ServiceDir(ServiceNames[i]) == FrontendApps[i]
  {
    forall i | 0 <= i < |ServiceNames|
      ensures ServiceDir(ServiceNames[i]) == FrontendApps[i]
    {
      var name := ServiceNames[i];
      if i > 0 {
        var dash := |name| - 4;
        assert name[dash] != '-' by {
          assert i == 1 || i == 2 || i == 3 || i == 4;
        }
        ShortNameGainsSuffix(name);
      }
    }
  }

  /** A name whose fourth-last character is not `-` gains `-app`. */
  lemma ShortNameGainsSuffix(name: string)
    requires |name| >= 4 && name[|name| - 4] != '-' && name != "container"
    ensures ServiceDir(name) == name + "-app"
  {
    assert name[|name| - 4..][0] == name[|name| - 4];
  }

  // -----------------------------------------------------------------------
  // One cycle's dispatch, as a specification
  // -----------------------------------------------------------------------

  /** What the dispatch loop of `run_fix_cycle` accumulates: the project as
      written so far, `fixed_errors`, `fixes_applied` and the restarts issued. */
  datatype CycleState = CycleState(project: Project, fixed: set<string>, fixes: nat, restarts: seq<string>)

  /** One iteration of the dispatch loop: skip an error already fixed,
      otherwise try its strategy; a success counts one fix, records the id
      and restarts the error's app. */
  function Step(st: CycleState, e: ErrorRecord, env: Env): (r: CycleState)
    ensures e.id in st.fixed ==> r == st
    ensures r.fixed >= st.fixed
    ensures r.fixes == st.fixes || (!e.Runtime? && r.fixes == st.fixes + 1 && r.restarts == st.restarts + [ServiceDir(e.app)])
    ensures r.fixes == st.fixes ==> r == st
    ensures e.id !in st.fixed && Remediate(e, st.project, env).Declined? ==> r == st
    ensures e.id !in st.fixed && Remediate(e, st.project, env).Fixed? ==>
      var o := Remediate(e, st.project, env);
      r == CycleState(o.project, st.fixed + {o.fixedId}, st.fixes + 1, st.restarts + [ServiceDir(e.app)])
  {
    if e.id in st.fixed then st
    else match Remediate(e, st.project, env)
      case Declined => st
      case Fixed(p, id) => CycleState(p, st.fixed + {id}, st.fixes + 1, st.restarts + [ServiceDir(e.app)])
  }

  /** The dispatch loop over a batch, by peeling the last error. */
  function Dispatch(errors: seq<ErrorRecord>, st: CycleState, env: Env): CycleState
    decreases |errors|
  {
    if errors == [] then st
    else Step(Dispatch(errors[..|errors| - 1], st, env), errors[|errors| - 1], env)
  }

  /** `d` is the restart directory of an app with a build error in `errors`. */
  ghost predicate RestartOf(errors: seq<ErrorRecord>, d: string) {
    exists e :: e in errors && !e.Runtime? && d == ServiceDir(e.app)
  }

  /** The accounting of a dispatch from `st` to `r` over `errors`: each
      successful fix issued exactly one restart, of an app that had an error
      in the batch; `fixed_errors` only grew; and no more fixes were applied
      than there were errors. */
  ghost predicate Accounted(errors: seq<ErrorRecord>, st: CycleState, r: CycleState) {
    && r.fixes - st.fixes == |r.restarts| - |st.restarts|
    && |st.restarts| <= |r.restarts| && r.restarts[..|st.restarts|] == st.restarts
    && (forall i :: |st.restarts| <= i < |r.restarts| ==> RestartOf(errors, r.restarts[i]))
    && st.fixes <= r.fixes <= st.fixes + |errors|
    && st.fixed <= r.fixed
  }

  /** One more step of the dispatch loop keeps the accounting: the step either
      changes nothing or records one fix and one restart for `last`. */
  lemma AccountedStep(init: seq<ErrorRecord>, last: ErrorRecord, st: CycleState, mid: CycleState, r: CycleState)
    requires Accounted(init, st, mid)
    requires r == mid || (!last.Runtime? && r.fixes == mid.fixes + 1 && r.fixed >= mid.fixed &&
                          r.restarts == mid.restarts + [ServiceDir(last.app)])
    ensures Accounted(init + [last], st, r)
  {
    var errors := init + [last];
    if r != mid {
      assert r.restarts[..|st.restarts|] == mid.restarts[..|st.restarts|];
    }
    forall i | |st.restarts| <= i < |r.restarts| ensures RestartOf(errors, r.restarts[i]) {
      if i < |mid.restarts| {
        assert r.restarts[i] == mid.restarts[i];
        var e :| e in init && !e.Runtime? && mid.restarts[i] == ServiceDir(e.app);
        assert e in errors;
      } else {
        assert r.restarts[i] == ServiceDir(last.app) && last in errors;
      }
    }
  }

  /** Each successful fix issues exactly one restart, of an app that had an
      error in the batch; `fixed_errors` only grows; and no more fixes are
      applied than there were errors. */
  lemma {:induction false} DispatchAccounting(errors: seq<ErrorRecord>, st: CycleState, env: Env)
    ensures Accounted(errors, st, Dispatch(errors, st, env))
    decreases |errors|
  {
    if errors != [] {
      var init := errors[..|errors| - 1];
      DispatchAccounting(init, st, env);
      var mid := Dispatch(init, st, env);
      AccountedStep(init, errors[|errors| - 1], st, mid, Step(mid, errors[|errors| - 1], env));
      assert init + [errors[|errors| - 1]] == errors;
    } else {
      assert st.restarts[..|st.restarts|] == st.restarts;
    }
  }

  /** A batch of runtime errors, or of errors all already fixed, changes nothing. */
  lemma {:induction false} DispatchIgnores(errors: seq<ErrorRecord>, st: CycleState, env: Env)
    requires forall e :: e in errors ==> e.Runtime? || e.id in st.fixed
    ensures Dispatch(errors, st, env) == st
    decreases |errors|
  {
    if errors != [] {
      DispatchIgnores(errors[..|errors| - 1], st, env);
      assert errors[|errors| - 1] in errors;
    }
  }

  /** Extending a prefix of the batch by one error is one more `Step`. */
  lemma DispatchPrefix(errors: seq<ErrorRecord>, i: nat, st: CycleState, env: Env)
    requires i < |errors|
    ensures Dispatch(errors[..i + 1], st, env) == Step(Dispatch(errors[..i], st, env), errors[i], env)
  {
    var prefix := errors[..i + 1];
    assert prefix[..i] == errors[..i] && prefix[i] == errors[i];
  }

  // -----------------------------------------------------------------------
  // The outer loop's termination rule, as a specification
  // -----------------------------------------------------------------------

  function Sum(counts: seq<nat>): nat
    decreases |counts|
  {
    if counts == [] then 0 else Sum(counts[..|counts| - 1]) + counts[|counts| - 1]
  }

  /** The per-cycle fix counts of a run that started at iteration `start`
      keep to the loop's rule: every cycle began below `max`, and none but
      the last was a zero-fix cycle ending at iteration 3 or later. */
  ghost predicate Continued(start: nat, max: nat, counts: seq<nat>) {
    (|counts| == 0 || start + |counts| <= max) &&
    (forall k :: 0 <= k < |counts| - 1 ==> counts[k] > 0 || start + k + 1 < 3)
  }

  /** The run stopped: the last cycle was a zero-fix cycle at iteration 3 or
      later, or the iteration bound was reached. */
  ghost predicate Stopped(start: nat, max: nat, counts: seq<nat>) {
    Continued(start, max, counts) &&
    ((|counts| > 0 && counts[|counts| - 1] == 0 && start + |counts| >= 3) || start + |counts| >= max)
  }

  /** Running one more cycle below the bound keeps to the loop's rule, whatever it fixes. */
  lemma ContinuedSnoc(start: nat, max: nat, counts: seq<nat>, c: nat)
    requires Continued(start, max, counts) && start + |counts| < max
    requires |counts| > 0 ==> counts[|counts| - 1] > 0 || start + |counts| < 3
    ensures Continued(start, max, counts + [c])
  {
    var next := counts + [c];
    forall k | 0 <= k < |next| - 1
      ensures next[k] > 0 || start + k + 1 < 3
    {
      assert next[k] == counts[k];
    }
  }

  /** The total grows by each cycle's count. */
  lemma SumSnoc(counts: seq<nat>, c: nat)
    ensures Sum(counts + [c]) == Sum(counts) + c
  {
    assert (counts + [c])[..|counts|] == counts;
  }

  /** A run in which every cycle applies a fix only stops at the bound. */
  lemma BusyRunReachesBound(start: nat, max: nat, counts: seq<nat>)
    requires Stopped(start, max, counts) && start <= max
    requires forall k :: 0 <= k < |counts| ==> counts[k] > 0
    ensures start + |counts| == max
  {
  }

  /** From a fresh fixer with `max_iterations >= 3`, a run in which no cycle
      applies a fix stops after exactly three cycles. */
  lemma QuietRunStopsAfterThree(max: nat, counts: seq<nat>)
    requires Stopped(0, max, counts) && max >= 3
    requires forall k :: 0 <= k < |counts| ==> counts[k] == 0
    ensures |counts| == 3
  {
    var third := if |counts| > 2 then counts[2] else 0;
  }

  /** The total is positive exactly when some cycle applied a fix. */
  lemma {:induction false} SumPositive(counts: seq<nat>)
    ensures Sum(counts) > 0 <==> exists k :: 0 <= k < |counts| && counts[k] > 0
    decreases |counts|
  {
    if counts != [] {
      var init := counts[..|counts| - 1];
      SumPositive(init);
      if exists k :: 0 <= k < |init| && init[k] > 0 {
        var k :| 0 <= k < |init| && init[k] > 0;
        assert counts[k] > 0;
      }
      if exists k :: 0 <= k < |counts| && counts[k] > 0 {
        var k :| 0 <= k < |counts| && counts[k] > 0;
        if k < |init| {
          assert init[k] > 0;
        }
      }
    }
  }

  /** What one cycle observes: each app's log, and what the browser's
      `ErrorLogger` reports (nothing when the browser or page fails). */
  datatype Observation = Observation(logs: map<string, AppLog>, runtime: seq<RuntimeEntry>)

  /** What one cycle leaves behind: `seen_errors`, `fixed_errors`, the
      project as written, and the cycle's `fixes_applied`. */
  datatype CycleOutcome = CycleOutcome(seen: set<string>, fixed: set<string>, project: Project, fixes: nat)

  /** One `run_fix_cycle` as a function of the fixer's state: admit the
      webpack candidates of `apps`, dispatch the admitted errors, then admit
      the runtime errors. */
  function Cycle(apps: seq<string>, seen: set<string>, fixed: set<string>, project: Project,
                 obs: Observation, env: Env): (c: CycleOutcome)
    requires LogsWellFormed(obs.logs)
    ensures seen <= c.seen && fixed <= c.fixed
  {
    var admitted := Admit(seen, WebpackCandidates(apps, obs.logs));
    var r := Dispatch(admitted.kept, CycleState(project, fixed, 0, []), env);
    DispatchAccounting(admitted.kept, CycleState(project, fixed, 0, []), env);
    AdmitSpec(seen, WebpackCandidates(apps, obs.logs));
    AdmitSpec(admitted.seen, RuntimeRecords(obs.runtime));
    CycleOutcome(Admit(admitted.seen, RuntimeRecords(obs.runtime)).seen, r.fixed, r.project, r.fixes)
  }

  /** The cycle function of a run: from `seen_errors`, `fixed_errors`, the
      project and the number of the cycle, what the cycle leaves behind. */
  type CycleStep = (set<string>, set<string>, Project, nat) -> CycleOutcome

  /** The cycles of `run` on the observations `observe`: cycle `k` sees
      `observe(k)`. Logs that are not well formed are outside the model and
      yield a cycle that changes nothing. */
  function CycleOf(apps: seq<string>, observe: nat -> Observation, env: Env): CycleStep {
    (seen: set<string>, fixed: set<string>, project: Project, k: nat) =>
      if LogsWellFormed(observe(k).logs) then Cycle(apps, seen, fixed, project, observe(k), env)
      else CycleOutcome(seen, fixed, project, 0)
  }

  /** `step` is the cycle function of `run` on the observations `observe`:
      on well-formed logs, cycle `k` is `Cycle` on `observe(k)`. */
  ghost predicate Drives(step: CycleStep, apps: seq<string>, observe: nat -> Observation, env: Env) {
    forall seen, fixed, project, k {:trigger Cycle(apps, seen, fixed, project, observe(k), env)} ::
      LogsWellFormed(observe(k).logs) ==> step(seen, fixed, project, k) == Cycle(apps, seen, fixed, project, observe(k), env)
  }

  /** `CycleOf` is that cycle function. */
  lemma CycleOfDrives(apps: seq<string>, observe: nat -> Observation, env: Env)
    ensures Drives(CycleOf(apps, observe, env), apps, observe, env)
  {
  }


  /** The state `run` ends in and the fix count of each cycle it ran. */
  datatype RunOutcome = RunOutcome(seen: set<string>, fixed: set<string>, iteration: nat,
                                   project: Project, counts: seq<nat>)

  /** The cycles `run` performs from iteration `iteration` on: the loop stops
      at the bound, or after a zero-fix cycle that ends at iteration 3 or
      later. */
  function RunFrom(step: CycleStep, seen: set<string>, fixed: set<string>, iteration: nat, max: nat,
                   project: Project): (o: RunOutcome)
    ensures o.iteration == iteration + |o.counts|
    ensures iteration >= max ==> o.counts == []
    decreases max - iteration
  {
    if iteration >= max then RunOutcome(seen, fixed, iteration, project, [])
    else
      var c := step(seen, fixed, project, iteration + 1);
      if c.fixes == 0 && iteration + 1 >= 3 then RunOutcome(c.seen, c.fixed, iteration + 1, c.project, [0])
      else
        var rest := RunFrom(step, c.seen, c.fixed, iteration + 1, max, c.project);
        rest.(counts := [c.fixes] + rest.counts)
  }

  /** A run that starts at the iteration bound has no cycles. */
  lemma RunFromDone(step: CycleStep, seen: set<string>, fixed: set<string>, iteration: nat, max: nat, project: Project)
    requires iteration >= max
    ensures RunFrom(step, seen, fixed, iteration, max, project) == RunOutcome(seen, fixed, iteration, project, [])
  {
  }

  /** A cycle step that never forgets an error id. */
  ghost predicate Grows(step: CycleStep) {
    forall seen, fixed, project, k :: seen <= step(seen, fixed, project, k).seen && fixed <= step(seen, fixed, project, k).fixed
  }

  /** The cycles of `run` only add to `seen_errors` and `fixed_errors`. */
  lemma CycleOfGrows(apps: seq<string>, observe: nat -> Observation, env: Env)
    ensures Grows(CycleOf(apps, observe, env))
  {
    var step := CycleOf(apps, observe, env);
    forall seen, fixed, project, k
      ensures seen <= step(seen, fixed, project, k).seen && fixed <= step(seen, fixed, project, k).fixed
    {
      if LogsWellFormed(observe(k).logs) {
        var c := Cycle(apps, seen, fixed, project, observe(k), env);
      }
    }
  }

  /** A run of growing cycles ends with every id it started with. */
  lemma {:induction false} RunFromGrows(step: CycleStep, seen: set<string>, fixed: set<string>, iteration: nat,
                                        max: nat, project: Project)
    requires Grows(step)
    ensures seen <= RunFrom(step, seen, fixed, iteration, max, project).seen
    ensures fixed <= RunFrom(step, seen, fixed, iteration, max, project).fixed
    decreases max - iteration
  {
    if iteration < max {
      var c := step(seen, fixed, project, iteration + 1);
      if !(c.fixes == 0 && iteration + 1 >= 3) {
        RunFromGrows(step, c.seen, c.fixed, iteration + 1, max, c.project);
      }
    }
  }

  /** The cycles of a run satisfy the loop's stopping rule. */
  lemma {:induction false} RunFromStops(step: CycleStep, seen: set<string>, fixed: set<string>, iteration: nat,
                                        max: nat, project: Project)
    ensures Stopped(iteration, max, RunFrom(step, seen, fixed, iteration, max, project).counts)
    decreases max - iteration
  {
    var all := RunFrom(step, seen, fixed, iteration, max, project).counts;
    if iteration < max {
      var c := step(seen, fixed, project, iteration + 1);
      if c.fixes == 0 && iteration + 1 >= 3 {
        StoppedCons(iteration, max, 0, [], all);
      } else {
        var rest := RunFrom(step, c.seen, c.fixed, iteration + 1, max, c.project);
        RunFromStops(step, c.seen, c.fixed, iteration + 1, max, c.project);
        StoppedCons(iteration, max, c.fixes, rest.counts, all);
      }
    }
  }

  /** A cycle that does not stop the loop, put in front of a stopped run. */
  lemma StoppedCons(start: nat, max: nat, c: nat, counts: seq<nat>, all: seq<nat>)
    requires start < max && all == [c] + counts
    requires ((c > 0 || start + 1 < 3) && Stopped(start + 1, max, counts)) || (c == 0 && start + 1 >= 3 && counts == [])
    ensures Stopped(start, max, all)
  {
    forall k | 0 <= k < |all| - 1
      ensures all[k] > 0 || start + k + 1 < 3
    {
      if k > 0 {
        assert all[k] == counts[k - 1];
      }
    }
    if counts != [] {
      assert all[|all| - 1] == counts[|counts| - 1];
    }
  }

  class ErrorFixer {
    const maxIterations: nat
    /** The directories `get_webpack_errors` scans, fixed at construction. */
    const frontendApps: seq<string>
    var iteration: nat
    var seen: set<string>
    var fixed: set<string>

    constructor (maxIterations: nat)
      ensures this.maxIterations == maxIterations && frontendApps == FrontendApps
      ensures iteration == 0 && seen == {} && fixed == {}
    {
      this.maxIterations := maxIterations;
      frontendApps := FrontendApps;
      iteration := 0;
      seen := {};
      fixed := {};
    }

    /** One scanning loop: keep each candidate whose id is not yet seen, and
        mark it seen at once. */
    method Scan(cands: seq<ErrorRecord>) returns (kept: seq<ErrorRecord>)
      modifies this
      ensures Admit(old(seen), cands) == Admitted(kept, seen)
      ensures fixed == old(fixed) && iteration == old(iteration)
    {
      kept := [];
      var i := 0;
      while i < |cands|
        invariant 0 <= i <= |cands|
        invariant Admit(old(seen), cands[..i]) == Admitted(kept, seen)
        invariant fixed == old(fixed) && iteration == old(iteration)
      {
        var e := cands[i];
        AdmitSnoc(old(seen), cands[..i], e);
        assert cands[..i + 1] == cands[..i] + [e];
        if e.id !in seen {
          kept := kept + [e];
          seen := seen + {e.id};
        }
        i := i + 1;
      }
      assert cands[..|cands|] == cands;
    }

    /** The three scanning loops over one app's log: diagnostics, missing
        modules, no-output errors, sharing one seen set. */
    method ScanLog(app: string, log: AppLog) returns (kept: seq<ErrorRecord>)
      requires LogWellFormed(log) && log.hasErrorIn
      modifies this
      ensures Admit(old(seen), LogCandidates(app, log)) == Admitted(kept, seen)
      ensures fixed == old(fixed) && iteration == old(iteration)
    {
      var ts := TsRecords(app, log.diagnostics);
      var ms := MissingRecords(app, log.missing);
      var ns := NoOutputRecords(app, log.noOutput);
      var a := Scan(ts);
      var b := Scan(ms);
      var c := Scan(ns);
      AdmitAppend(old(seen), ts, ms);
      AdmitAppend(old(seen), ts + ms, ns);
      kept := a + b + c;
    }

    /** The scan over the given apps' logs, in order. */
    method ScanApps(apps: seq<string>, logs: map<string, AppLog>) returns (errors: seq<ErrorRecord>)
      requires LogsWellFormed(logs)
      modifies this
      ensures Admit(old(seen), WebpackCandidates(apps, logs)) == Admitted(errors, seen)
      ensures fixed == old(fixed) && iteration == old(iteration)
    {
      errors := [];
      var i := 0;
      while i < |apps|
        invariant 0 <= i <= |apps|
        invariant Admit(old(seen), WebpackCandidates(apps[..i], logs)) == Admitted(errors, seen)
        invariant fixed == old(fixed) && iteration == old(iteration)
      {
        var app := apps[i];
        WebpackCandidatesSnoc(apps, i, logs);
        ghost var before := WebpackCandidates(apps[..i], logs);
        if app in logs && logs[app].hasErrorIn {
          var kept := ScanLog(app, logs[app]);
          AdmitAppend(old(seen), before, LogCandidates(app, logs[app]));
          errors := errors + kept;
        } else {
          assert before + [] == before;
        }
        i := i + 1;
      }
      assert apps[..|apps|] == apps;
    }

    /** `get_webpack_errors`: scan the logs of the frontend apps in order; an
        app without a log, or whose log lacks `ERROR in`, yields nothing. */
    method GetWebpackErrors(logs: map<string, AppLog>) returns (errors: seq<ErrorRecord>)
      requires LogsWellFormed(logs)
      modifies this
      ensures Admit(old(seen), WebpackCandidates(frontendApps, logs)) == Admitted(errors, seen)
      ensures fixed == old(fixed) && iteration == old(iteration)
    {
      errors := ScanApps(frontendApps, logs);
    }

    /** `get_runtime_errors`: one scan over the entries the page reported,
        each with id `runtime:<id>`. */
    method GetRuntimeErrors(entries: seq<RuntimeEntry>) returns (errors: seq<ErrorRecord>)
      modifies this
      ensures Admit(old(seen), RuntimeRecords(entries)) == Admitted(errors, seen)
      ensures fixed == old(fixed) && iteration == old(iteration)
    {
      errors := Scan(RuntimeRecords(entries));
    }

    /** The dispatch loop of `run_fix_cycle` over the new webpack errors:
        skip an error already fixed, otherwise try its strategy; a success
        counts one fix, records its id and restarts the error's app. */
    method DispatchErrors(errors: seq<ErrorRecord>, project: Project, env: Env)
      returns (fixes: nat, restarts: seq<string>, written: Project)
      modifies this
      ensures Dispatch(errors, CycleState(project, old(fixed), 0, []), env) == CycleState(written, fixed, fixes, restarts)
      ensures seen == old(seen) && iteration == old(iteration)
    {
      ghost var init := CycleState(project, fixed, 0, []);
      fixes, restarts, written := 0, [], project;
      for i := 0 to |errors|
        invariant Dispatch(errors[..i], init, env) == CycleState(written, fixed, fixes, restarts)
        invariant seen == old(seen) && iteration == old(iteration)
      {
        var e := errors[i];
        DispatchPrefix(errors, i, init, env);
        if e.id !in fixed {
          match Remediate(e, written, env)
          case Declined =>
          case Fixed(p, id) =>
            written := p;
            fixed := fixed + {id};
            fixes := fixes + 1;
            restarts := restarts + [ServiceDir(e.app)];
        }
      }
      assert errors[..|errors|] == errors;
    }

    /** `run_fix_cycle`: scan the logs, dispatch each new error, then scan the
        runtime errors, which are only reported. The cycle's fixes, restarts,
        written project and new `fixed_errors` are those of `Dispatch`. */
    method RunFixCycle(obs: Observation, project: Project, env: Env)
      returns (fixes: nat, restarts: seq<string>, written: Project)
      requires LogsWellFormed(obs.logs)
      modifies this
      ensures var admitted := Admit(old(seen), WebpackCandidates(frontendApps, obs.logs));
              var r := Dispatch(admitted.kept, CycleState(project, old(fixed), 0, []), env);
              fixes == r.fixes && restarts == r.restarts && written == r.project && fixed == r.fixed &&
              seen == Admit(admitted.seen, RuntimeRecords(obs.runtime)).seen
      ensures Cycle(frontendApps, old(seen), old(fixed), project, obs, env) == CycleOutcome(seen, fixed, written, fixes)
      ensures fixes == |restarts|
      ensures old(seen) <= seen && old(fixed) <= fixed && iteration == old(iteration)
    {
      var errors := GetWebpackErrors(obs.logs);
      ghost var scanned := seen;
      ghost var fixedBefore := fixed;
      fixes, restarts, written := DispatchErrors(errors, project, env);
      DispatchAccounting(errors, CycleState(project, fixedBefore, 0, []), env);
      AdmitSpec(old(seen), WebpackCandidates(frontendApps, obs.logs));
      var runtimeErrors := GetRuntimeErrors(obs.runtime);
      AdmitSpec(scanned, RuntimeRecords(obs.runtime));
    }

    /** One pass of `run`'s loop: advance the iteration and run one cycle on
        that iteration's observation. When the run so far is `counts`
        followed by the run from the current state, it is afterwards
        `counts` and this cycle's count followed by the run from the new
        state, or it ends here when the cycle stops the loop. */
    method Turn(ghost step: CycleStep, observe: nat -> Observation, env: Env, ghost whole: RunOutcome, ghost counts: seq<nat>,
                project: Project)
      returns (fixes: nat, written: Project)
      requires forall k :: LogsWellFormed(observe(k).logs)
      requires Drives(step, frontendApps, observe, env)
      requires iteration < maxIterations
      requires whole == Joined(counts, RunFrom(step, seen, fixed, iteration, maxIterations, project))
      modifies this
      ensures iteration == old(iteration) + 1
      ensures old(seen) <= seen && old(fixed) <= fixed
      ensures fixes == 0 && iteration >= 3 ==> whole == RunOutcome(seen, fixed, iteration, written, counts + [fixes])
      ensures !(fixes == 0 && iteration >= 3) ==>
              whole == Joined(counts + [fixes], RunFrom(step, seen, fixed, iteration, maxIterations, written))
    {
      iteration := iteration + 1;
      var restarts;
      fixes, restarts, written := RunFixCycle(observe(iteration), project, env);
      RunLoopStep(step, whole, counts, old(seen), old(fixed), old(iteration), maxIterations, project,
                  seen, fixed, iteration, written, fixes);
    }

    /** `run`: after a failed health check nothing happens and the result is
        false; otherwise the cycles are those of `RunFrom`, which stops at the
        iteration bound or after a zero-fix cycle ending at iteration 3 or
        later. The result is whether any fix was applied. `counts` are the
        per-cycle fix counts. */
    method Run(healthy: bool, observe: nat -> Observation, project: Project, env: Env)
      returns (ok: bool, written: Project, ghost counts: seq<nat>)
      requires forall k :: LogsWellFormed(observe(k).logs)
      modifies this
      ensures !healthy ==> !ok && written == project && counts == [] &&
                           iteration == old(iteration) && seen == old(seen) && fixed == old(fixed)
      ensures healthy ==> RunFrom(CycleOf(frontendApps, observe, env), old(seen), old(fixed), old(iteration), maxIterations, project)
                          == RunOutcome(seen, fixed, iteration, written, counts)
      ensures healthy ==> Stopped(old(iteration), maxIterations, counts)
      ensures iteration == old(iteration) + |counts|
      ensures ok <==> exists k :: 0 <= k < |counts| && counts[k] > 0
      ensures old(seen) <= seen && old(fixed) <= fixed
    {
      if !healthy {
        return false, project, [];
      }
      CycleOfDrives(frontendApps, observe, env);
      var total;
      total, written, counts := RunCycles(CycleOf(frontendApps, observe, env), observe, project, env);
      RunFromStops(CycleOf(frontendApps, observe, env), old(seen), old(fixed), old(iteration), maxIterations, project);
      CycleOfGrows(frontendApps, observe, env);
      RunFromGrows(CycleOf(frontendApps, observe, env), old(seen), old(fixed), old(iteration), maxIterations, project);
      SumPositive(counts);
      ok := total > 0;
    }

    /** The loop of `run` after a passing health check: `total` is
        `total_fixes`, the sum of the per-cycle counts. */
    method RunCycles(ghost step: CycleStep, observe: nat -> Observation, project: Project, env: Env)
      returns (total: nat, written: Project, ghost counts: seq<nat>)
      requires forall k :: LogsWellFormed(observe(k).logs)
      requires Drives(step, frontendApps, observe, env)
      modifies this
      ensures RunFrom(step, old(seen), old(fixed), old(iteration), maxIterations, project)
              == RunOutcome(seen, fixed, iteration, written, counts)
      ensures total == Sum(counts)
    {
      counts, total, written := [], 0, project;
      ghost var whole := RunFrom(step, seen, fixed, iteration, maxIterations, written);
      assert whole == Joined([], whole);
      while iteration < maxIterations
        invariant total == Sum(counts)
        invariant whole == Joined(counts, RunFrom(step, seen, fixed, iteration, maxIterations, written))
        decreases maxIterations - iteration
      {
        var fixes;
        fixes, written := Turn(step, observe, env, whole, counts, written);
        total := total + fixes;
        SumSnoc(counts, fixes);
        counts := counts + [fixes];
        if fixes == 0 && iteration >= 3 {
          assert whole == RunOutcome(seen, fixed, iteration, written, counts);
          break;
        }
      }
      if iteration >= maxIterations {
        RunFromDone(step, seen, fixed, iteration, maxIterations, written);
        assert counts + [] == counts;
      }
    }
  }

  /** One turn of `run`'s loop: when the run so far is `counts` followed by
      the run from the state before the cycle, it is `counts` and the
      cycle's count followed by the run from the state after it, or, when
      the cycle stops the loop, it ends there. */
  lemma RunLoopStep(step: CycleStep, whole: RunOutcome, counts: seq<nat>,
                    seen0: set<string>, fixed0: set<string>, iteration0: nat, max: nat, project0: Project,
                    seen: set<string>, fixed: set<string>, iteration: nat, project: Project, fixes: nat)
    requires iteration0 < max && iteration == iteration0 + 1
    requires whole == Joined(counts, RunFrom(step, seen0, fixed0, iteration0, max, project0))
    requires step(seen0, fixed0, project0, iteration) == CycleOutcome(seen, fixed, project, fixes)
    ensures fixes == 0 && iteration >= 3 ==> whole == RunOutcome(seen, fixed, iteration, project, counts + [fixes])
    ensures !(fixes == 0 && iteration >= 3) ==>
            whole == Joined(counts + [fixes], RunFrom(step, seen, fixed, iteration, max, project))
  {
    var rest := RunFrom(step, seen0, fixed0, iteration0, max, project0);
    JoinedSnoc(counts, fixes, rest, RunFrom(step, seen, fixed, iteration, max, project));
  }

  /** The state a run reaches after the cycles `counts`, followed by `o`. */
  function Joined(counts: seq<nat>, o: RunOutcome): RunOutcome {
    o.(counts := counts + o.counts)
  }

  /** One more cycle moves from the remaining run `rest` to its own remainder
      `next`, or, when the cycle stops the loop, ends the run. */
  lemma JoinedSnoc(counts: seq<nat>, c: nat, rest: RunOutcome, next: RunOutcome)
    ensures rest == Joined([c], next) ==> Joined(counts, rest) == Joined(counts + [c], next)
    ensures rest == RunOutcome(next.seen, next.fixed, next.iteration, next.project, [c]) ==>
            Joined(counts, rest) == RunOutcome(next.seen, next.fixed, next.iteration, next.project, counts + [c])
  {
    assert counts + ([c] + next.counts) == counts + [c] + next.counts;
  }
}
