/** Error candidates as `ErrorFixer` extracts them from webpack logs and from
    the browser's `ErrorLogger`, their fingerprints (`id`s), and the
    deduplication of candidates against the set of fingerprints already seen. */
module Fingerprints {
  import opened Common
  import opened Text

  /** One match of the TypeScript diagnostic pattern in a webpack log: the
      file, the digit strings of line, column and `TS` code, and the message
      text before `.strip()`. */
  datatype TsDiagnostic = TsDiagnostic(file: string, line: string, column: string, code: string, message: string)
  {
    predicate WellFormed() {
      line != [] && column != [] && code != [] && AllDigits(line) && AllDigits(column) && AllDigits(code)
    }
  }

  /** One match of `Module not found: Error: Can't resolve '<module>' in '<location>'`. */
  datatype MissingModule = MissingModule(name: string, location: string)

  /** What the three patterns find in one app's log, in order of occurrence,
      and whether the log contains `ERROR in` at all. The file stem of each
      `TypeScript emitted no output for <stem>.ts(x)` match is in `noOutput`. */
  datatype AppLog = AppLog(hasErrorIn: bool, diagnostics: seq<TsDiagnostic>, missing: seq<MissingModule>, noOutput: seq<string>)

  /** An entry of `window.ErrorLogger.getErrors()`; `id` and `message` may be absent. */
  datatype RuntimeEntry = RuntimeEntry(id: Option<string>, message: Option<string>)

  /** The error dictionaries the fixer builds, one constructor per `type`. */
  datatype ErrorRecord =
    | Typescript(app: string, file: string, line: nat, column: nat, code: string, message: string, id: string)
    | MissingModuleError(app: string, moduleName: string, location: string, id: string)
    | TsconfigNoEmit(app: string, file: string, id: string)
    | Runtime(data: RuntimeEntry, id: string)

  /** The frontend directories whose logs are scanned, in scan order. */
  const FrontendApps: seq<string> := ["container", "user-management-app", "data-grid-app", "analytics-app", "settings-app"]

  // Fingerprint formats.

  function TsId(d: TsDiagnostic): string {
    d.file + ":" + d.line + ":" + d.code
  }

  function MissingId(moduleName: string): string {
    "missing:" + moduleName
  }

  function NoOutputId(app: string): string {
    "no_output:" + app
  }

  function RuntimeId(e: RuntimeEntry): string {
    "runtime:" + e.id.GetOr("")
  }

  /** The id a successful TypeScript line fix records: resolved path, line
      number as printed by Python, and the `TS` code. */
  function FixedTsId(path: string, line: nat, code: string): string {
    path + ":" + NatToString(line) + ":" + code
  }

  /** A TypeScript candidate becomes a record whose id is `<file>:<line>:<digits>`,
      whose code gains the `TS` prefix, and whose message is stripped. */
  function TsRecord(app: string, d: TsDiagnostic): (e: ErrorRecord)
    requires d.WellFormed()
    ensures e.Typescript? && e.app == app && e.file == d.file && e.id == TsId(d)
    ensures e.code == "TS" + d.code && e.line == DigitsValue(d.line) && e.column == DigitsValue(d.column)
    ensures e.message == Strip(d.message)
  {
    Typescript(app, d.file, DigitsValue(d.line), DigitsValue(d.column), "TS" + d.code, Strip(d.message), TsId(d))
  }

  function TsRecords(app: string, ds: seq<TsDiagnostic>): (es: seq<ErrorRecord>)
    requires forall d :: d in ds ==> d.WellFormed()
    ensures |es| == |ds| && forall i :: 0 <= i < |ds| ==> es[i] == TsRecord(app, ds[i])
  {
    if ds == [] then [] else [TsRecord(app, ds[0])] + TsRecords(app, ds[1..])
  }

  function MissingRecords(app: string, ms: seq<MissingModule>): (es: seq<ErrorRecord>)
    ensures |es| == |ms|
    ensures forall i :: 0 <= i < |ms| ==> es[i] == MissingModuleError(app, ms[i].name, ms[i].location, MissingId(ms[i].name))
  {
    if ms == [] then [] else [MissingModuleError(app, ms[0].name, ms[0].location, MissingId(ms[0].name))] + MissingRecords(app, ms[1..])
  }

  /** Every no-output match of one app carries the same id `no_output:<app>`,
      whatever the file. */
  function NoOutputRecords(app: string, files: seq<string>): (es: seq<ErrorRecord>)
    ensures |es| == |files|
    ensures forall i :: 0 <= i < |files| ==> es[i] == TsconfigNoEmit(app, files[i], NoOutputId(app))
  {
    if files == [] then [] else [TsconfigNoEmit(app, files[0], NoOutputId(app))] + NoOutputRecords(app, files[1..])
  }

  predicate LogWellFormed(log: AppLog) {
    forall d :: d in log.diagnostics ==> d.WellFormed()
  }

  /** The candidates of one app's log in scan order; nothing is extracted
      unless the log contains `ERROR in`. */
  function LogCandidates(app: string, log: AppLog): (es: seq<ErrorRecord>)
    requires LogWellFormed(log)
    ensures !log.hasErrorIn ==> es == []
    ensures log.hasErrorIn ==> |es| == |log.diagnostics| + |log.missing| + |log.noOutput|
    ensures log.hasErrorIn ==> forall i :: 0 <= i < |log.diagnostics| ==> es[i] == TsRecord(app, log.diagnostics[i])
    ensures log.hasErrorIn ==> forall i :: 0 <= i < |log.missing| ==>
              es[|log.diagnostics| + i] == MissingModuleError(app, log.missing[i].name, log.missing[i].location, MissingId(log.missing[i].name))
    ensures log.hasErrorIn ==> forall i :: 0 <= i < |log.noOutput| ==>
              es[|log.diagnostics| + |log.missing| + i] == TsconfigNoEmit(app, log.noOutput[i], NoOutputId(app))
  {
    if log.hasErrorIn then
      TsRecords(app, log.diagnostics) + MissingRecords(app, log.missing) + NoOutputRecords(app, log.noOutput)
    else []
  }

  predicate LogsWellFormed(logs: map<string, AppLog>) {
    forall app :: app in logs ==> LogWellFormed(logs[app])
  }

  /** The candidates of the apps in `apps`, in order; an app without a log
      file contributes nothing. */
  function WebpackCandidates(apps: seq<string>, logs: map<string, AppLog>): seq<ErrorRecord>
    requires LogsWellFormed(logs)
    decreases |apps|
  {
    if apps == [] then []
    else
      var last := apps[|apps| - 1];
      WebpackCandidates(apps[..|apps| - 1], logs) + (if last in logs then LogCandidates(last, logs[last]) else [])
  }

  /** Scanning one more app appends that app's candidates. */
  lemma WebpackCandidatesSnoc(apps: seq<string>, i: nat, logs: map<string, AppLog>)
    requires LogsWellFormed(logs) && i < |apps|
    ensures WebpackCandidates(apps[..i + 1], logs) ==
            WebpackCandidates(apps[..i], logs) + (if apps[i] in logs then LogCandidates(apps[i], logs[apps[i]]) else [])
  {
    assert apps[..i + 1][..i] == apps[..i];
  }

  function RuntimeRecords(entries: seq<RuntimeEntry>): (es: seq<ErrorRecord>)
    ensures |es| == |entries|
    ensures forall i :: 0 <= i < |entries| ==> es[i] == Runtime(entries[i], RuntimeId(entries[i]))
  {
    if entries == [] then [] else [Runtime(entries[0], RuntimeId(entries[0]))] + RuntimeRecords(entries[1..])
  }

  function Ids(es: seq<ErrorRecord>): set<string> {
    set e | e in es :: e.id
  }

  predicate DistinctIds(es: seq<ErrorRecord>) {
    forall i, j :: 0 <= i < j < |es| ==> es[i].id != es[j].id
  }

  /** The result of scanning candidates against `seen`: the candidates kept
      and the new seen set. */
  datatype Admitted = Admitted(kept: seq<ErrorRecord>, seen: set<string>)

  /** The deduplication the fixer performs: a candidate is kept only if its
      id is not yet seen, and its id is marked seen at once, so a repeated id
      within one batch is kept only the first time. Defined by peeling the
      last candidate, the order in which a scanning loop extends it. */
  function Admit(seen: set<string>, cands: seq<ErrorRecord>): (r: Admitted)
    ensures |r.kept| <= |cands|
    decreases |cands|
  {
    if cands == [] then Admitted([], seen)
    else
      var prev := Admit(seen, cands[..|cands| - 1]);
      var e := cands[|cands| - 1];
      if e.id in prev.seen then prev else Admitted(prev.kept + [e], prev.seen + {e.id})
  }

  /** The scan marks every candidate's id seen; it keeps exactly the ids not
      seen before, each once, and only candidates it was given. */
  lemma {:induction false} AdmitSpec(seen: set<string>, cands: seq<ErrorRecord>)
    ensures Scanned(seen, cands, Admit(seen, cands))
    decreases |cands|
  {
    if cands != [] {
      var init := cands[..|cands| - 1];
      AdmitSpec(seen, init);
      ScannedStep(seen, init, cands[|cands| - 1], Admit(seen, init));
      assert cands == init + [cands[|cands| - 1]];
    }
  }

  /** What a scan from `seen` over `cands` that produced `r` has done: every
      candidate id is now seen; the kept records are candidates with exactly
      the ids not seen before, each once. */
  ghost predicate Scanned(seen: set<string>, cands: seq<ErrorRecord>, r: Admitted) {
    && r.seen == seen + Ids(cands)
    && Ids(r.kept) == Ids(cands) - seen
    && (forall e :: e in r.kept ==> e in cands && e.id !in seen)
    && DistinctIds(r.kept)
  }

  /** Scanning one more candidate keeps what the scan has done. */
  lemma ScannedStep(seen: set<string>, init: seq<ErrorRecord>, e: ErrorRecord, prev: Admitted)
    requires Scanned(seen, init, prev)
    ensures Scanned(seen, init + [e],
                    if e.id in prev.seen then prev else Admitted(prev.kept + [e], prev.seen + {e.id}))
  {
    IdsSnoc(init, e);
    if e.id !in prev.seen {
      IdsSnoc(prev.kept, e);
      DistinctSnoc(prev.kept, e);
      forall x | x in prev.kept + [e] ensures x in init + [e] && x.id !in seen {
        if x != e {
          assert x in prev.kept;
        }
      }
    }
  }

  /** Appending a record with a new id keeps the ids distinct. */
  lemma DistinctSnoc(es: seq<ErrorRecord>, e: ErrorRecord)
    requires DistinctIds(es) && e.id !in Ids(es)
    ensures DistinctIds(es + [e])
  {
    var t := es + [e];
    forall i, j | 0 <= i < j < |t| ensures t[i].id != t[j].id {
      assert t[i] == es[i];
      if j < |es| {
        assert t[j] == es[j];
      } else {
        assert es[i] in es;
      }
    }
  }

  /** Scanning one more candidate extends the previous scan. */
  lemma AdmitSnoc(seen: set<string>, cands: seq<ErrorRecord>, e: ErrorRecord)
    ensures var prev := Admit(seen, cands);
            Admit(seen, cands + [e]) ==
              if e.id in prev.seen then prev else Admitted(prev.kept + [e], prev.seen + {e.id})
  {
    assert (cands + [e])[..|cands|] == cands;
  }

  /** Scanning two batches one after the other is scanning their concatenation. */
  lemma {:induction false} AdmitAppend(seen: set<string>, a: seq<ErrorRecord>, b: seq<ErrorRecord>)
    ensures var first := Admit(seen, a);
            var second := Admit(first.seen, b);
            Admit(seen, a + b) == Admitted(first.kept + second.kept, second.seen)
    decreases |b|
  {
    if b == [] {
      assert a + b == a;
    } else {
      var b' := b[..|b| - 1];
      var e := b[|b| - 1];
      assert b == b' + [e];
      assert a + b == (a + b') + [e];
      AdmitAppend(seen, a, b');
      AdmitSnoc(seen, a + b', e);
      AdmitSnoc(Admit(seen, a).seen, b', e);
      var first := Admit(seen, a);
      var mid := Admit(first.seen, b');
      assert first.kept + (mid.kept + [e]) == (first.kept + mid.kept) + [e];
    }
  }

  /** Records with pairwise distinct ids have as many ids as records. */
  lemma {:induction false} DistinctIdsCount(es: seq<ErrorRecord>)
    requires DistinctIds(es)
    ensures |Ids(es)| == |es|
    decreases |es|
  {
    if es != [] {
      var init, e := es[..|es| - 1], es[|es| - 1];
      assert es == init + [e];
      DistinctInit(es);
      DistinctIdsCount(init);
      IdsSnoc(init, e);
      CardAddNew(Ids(init), e.id);
    }
  }

  /** Adding a new element grows a set by one. */
  lemma CardAddNew(a: set<string>, x: string)
    requires x !in a
    ensures |a + {x}| == |a| + 1
  { }

  /** The ids of a list with one more record. */
  lemma IdsSnoc(init: seq<ErrorRecord>, e: ErrorRecord)
    ensures Ids(init + [e]) == Ids(init) + {e.id}
  {
    assert forall k :: k in init + [e] <==> k in init || k == e;
  }

  /** Dropping the last record keeps the ids distinct, and the last id is new. */
  lemma DistinctInit(es: seq<ErrorRecord>)
    requires es != [] && DistinctIds(es)
    ensures DistinctIds(es[..|es| - 1]) && es[|es| - 1].id !in Ids(es[..|es| - 1])
  {
    var init, e := es[..|es| - 1], es[|es| - 1];
    forall k | k in init
      ensures k.id != e.id
    {
      var j :| 0 <= j < |init| && init[j] == k;
      assert es[j] == k;
    }
  }

  /** Candidates whose ids were all seen already yield nothing: an id is
      returned at most once over the fixer's lifetime. */
  lemma RescanKeepsNothing(seen: set<string>, later: seq<ErrorRecord>)
    requires Ids(later) <= seen
    ensures Admit(seen, later).kept == []
  {
    var r := Admit(seen, later);
    AdmitSpec(seen, later);
    DistinctIdsCount(r.kept);
    assert Ids(r.kept) == {};
  }

  /** Whatever the seen set, all no-output matches of one app yield at most one record. */
  lemma OneNoOutputPerApp(seen: set<string>, app: string, files: seq<string>)
    ensures |Admit(seen, NoOutputRecords(app, files)).kept| <= 1
  {
    var cands := NoOutputRecords(app, files);
    var r := Admit(seen, cands);
    var x := NoOutputId(app);
    AdmitSpec(seen, cands);
    assert Ids(cands) <= {x};
    DistinctIdsCount(r.kept);
    if x in Ids(r.kept) {
      assert Ids(r.kept) == {x};
    } else {
      assert Ids(r.kept) == {};
    }
  }

  /** The id a TypeScript fix records never equals a candidate's id: the
      candidate id ends in `:<digits>`, the recorded one in `:TS<digits>`. So
      the `fixed_errors` check never skips a TypeScript candidate. */
  lemma FixedIdIsNeverCandidateId(d: TsDiagnostic, path: string, line: nat, digits: string)
    requires AllDigits(d.code) && AllDigits(digits)
    ensures TsId(d) != FixedTsId(path, line, "TS" + digits)
  {
    var a := TsId(d);
    var b := FixedTsId(path, line, "TS" + digits);
    assert b == (path + ":" + NatToString(line) + ":") + ("TS" + digits);
    if |a| == |b| {
      var p := |b| - |digits| - 1;
      assert b[p] == 'S';
      if |d.code| >= |digits| + 1 {
        assert a[p] == d.code[|d.code| - |digits| - 1];
      } else if |d.code| == |digits| {
        assert a[p] == ':';
      } else {
        var q := |a| - |d.code| - 1;
        assert a[q] == ':';
        assert b[q] == digits[q - (|b| - |digits|)];
        assert a[q] != b[q];
      }
    }
  }
}
