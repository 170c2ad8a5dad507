# Error fixer and mock data service, modelled in Dafny

This project models two parts of a micro-frontend demo system.

- The automated error fixer (`ErrorFixer`). It scans each frontend app's webpack log for three kinds of errors: TypeScript diagnostics, unresolvable modules and "TypeScript emitted no output". It also reads the browser's `ErrorLogger`. Every candidate gets a fingerprint, and fingerprints already seen are dropped. Each new error goes to a remediation strategy:
  - an `npm install` of a missing module;
  - flipping `"noEmit": true` in `tsconfig.json`;
  - a one-line rewrite for TS2307, TS7006, TS2339 or TS2345.
  A successful fix restarts the app. The outer loop stops at `max_iterations`, or after a zero-fix cycle at iteration 3 or later.
- The stores behind the mock data service's routers:
  - the error-log store (create with a 1000-record cap, filtered and paged listing sorted newest first, statistics, lookup, patch, delete, clear, bulk resolve, export);
  - the user store seeded with three demo users;
  - the refresh-token store;
  - the credential checks of the auth dependencies;
  - the login, refresh and logout endpoints;
  - the data-row and user tables;
  - the settings record.

Modules:

- `Common`: `Option`, `Result` and HTTP errors.
- `Text`: substring search, Python's `str.replace`, `\w`, `\d` and `\s` classes, `str.strip`, integer printing.
- `Collections`: slicing `[skip:skip + limit]`, first match, list comprehension filter, `dict` assignment.
- `Strategies`: the file-rewriting strategies of the fixer. Each regular expression is modelled as a scanner with Python's leftmost, non-overlapping `re.sub` semantics.
- `Fingerprints`: error records, their ids, and the seen-set deduplication.
- `Fixer`: the remediation dispatch, the cycle, the outer loop, and the `ErrorFixer` class.
- `ErrorStore`, `Accounts`, `AuthDeps`, `AuthRouter`, `Tables`, `Settings`: the service.

The model represents the outside world as inputs:

- the clock, uuids and the five-minutes-ago threshold;
- password hashing and checking, and minting and decoding JWTs (function-typed parameters);
- log contents (as the pattern matches they contain) and the browser's reports;
- the result of `npm install`, and where a reported file resolves on disk.

Stateful parts are classes:

- `ErrorFixer` holds `iteration`, `seen_errors` and `fixed_errors`;
- `ErrorLogStore` holds the store file's records;
- `UserStore` and `RefreshTokenStore` hold their dicts;
- `Table` is used for `data_rows_db` and `users_db`;
- `SettingsStore` holds `settings_db`.

Their methods are proved against specification functions, and the properties of those functions are proved as lemmas.

## Model

| member | source | states |
|---|---|---|
| Strategies.FixTsconfig | auto_fix_errors.py:245-258 | The fix applies exactly when the text contains `"noEmit": true`. The new text is then `str.replace` of every occurrence by `"noEmit": false`, and no `"noEmit": true` is left. Declining leaves the text unchanged. |
| Strategies.TsconfigIdempotent | auto_fix_errors.py:245-258 | Running the tsconfig fix on its own output declines and changes nothing. |
| Strategies.NoEmitGone | auto_fix_errors.py:247 | `str.replace('"noEmit": true', '"noEmit": false')` never leaves an occurrence of the old flag, even where replacements abut. |
| Strategies.NoEmitAfterFalse | auto_fix_errors.py:247 | A `"noEmit": false` put in front of text without `"noEmit": true` does not create one. |
| Strategies.SrcDepth | auto_fix_errors.py:333-336 | The depth is the number of path components equal to `src`. It is zero exactly when no component is `src`. |
| Strategies.DotDots | auto_fix_errors.py:343 | The greedy `(\.\./)*` stops at the first position that does not start `../`. |
| Strategies.FixImportLine | auto_fix_errors.py:330-358 | The fix succeeds exactly when the line mentions `shared-ui-lib`, the `src` depth is positive and the `re.sub` of every import match changes the line. The result is that rewrite, and rewriting it again changes nothing. |
| Strategies.RewriteImportsIdempotent | auto_fix_errors.py:342-346 | The import rewrite is idempotent for every line and depth. |
| Strategies.SpecifierMatches | auto_fix_errors.py:339-345 | The replacement `from '` + `../` × (depth+1) + `shared-ui-lib` is itself one whole match of the pattern. |
| Strategies.FindQuotedWord | auto_fix_errors.py:368 | `re.search` for head, `(\w+)`, tail: there is no match exactly when no position starts one. Otherwise the capture is taken at the leftmost matching position; it is a non-empty run of word characters and the message contains it quoted between head and tail. |
| Strategies.QuotedFrom | auto_fix_errors.py:368 | The scan from a position finds nothing exactly when no later position starts a match. Otherwise it returns a matching position with none before it. |
| Strategies.QuotedContains | auto_fix_errors.py:368 | A match at a position means the message contains the head, and the head, captured word and tail in a row. |
| Strategies.FixImplicitAnyLine | auto_fix_errors.py:366-400 | The fix succeeds exactly when the message names a parameter and annotating the line with `\bname\b(?!\s*:)` → `name: any` changes it. The result is that annotation. It declines when the message names no parameter, and a success contains `<name>: any`. |
| Strategies.AnnotateLeavesMark | auto_fix_errors.py:384-388 | Whenever the `\bname\b(?!\s*:)` substitution changes a line, the line then holds `name: any`. |
| Strategies.AnnotateIdempotent | auto_fix_errors.py:384-388 | For a word-character parameter name other than `any`, annotating an annotated line changes nothing. |
| Strategies.AnyParameterReannotated | auto_fix_errors.py:384-388 | A parameter named `any` gains another `: any` on every run: `(any)` becomes `(any: any)`, then `(any: any: any)`. |
| Strategies.TypeNamedLikeParameter | auto_fix_errors.py:384-388 | A parameter already annotated with a type spelled like the parameter itself is annotated again after that type. |
| Strategies.BareNameAnnotated | auto_fix_errors.py:384-388 | A bare parameter name just before `)` gets `: any` after it. |
| Strategies.WrapFirstAccess | auto_fix_errors.py:426-431 | `count=1` substitution: nothing when no `\w+\.\w+` occurs. Otherwise the leftmost match is wrapped as `(x as any).y`. |
| Strategies.FirstAccess | auto_fix_errors.py:427 | Finds the leftmost start where `(\w+)\.(\w+)` matches. No earlier start matches. |
| Strategies.FixPropertyLine | auto_fix_errors.py:419-443 | The fix succeeds exactly when the line has a `.` and no `as any`, the message names a property, and the first-access wrap exists and changes the line. The result is that wrap, and it contains `as any`. |
| Strategies.ApplyMatch | auto_fix_errors.py:463-467 | A match of the `.apply(...)` pattern starts with `.apply(` and its replacement carries `as any`. |
| Strategies.CastLeavesMark | auto_fix_errors.py:463-467 | Whenever the `.apply` substitution changes a line, the result contains `as any`. |
| Strategies.NoApplyNoChange | auto_fix_errors.py:463-467 | A line without `.apply(` is never changed by the substitution. |
| Strategies.FixCastLine | auto_fix_errors.py:461-479 | The fix succeeds exactly when the line has no `as any` and the `.apply(...)` substitution changes it; the result is the substitution. It declines on a line without `.apply(`. |
| Strategies.LineIndex | auto_fix_errors.py:325-328 | `line > len(lines)` declines. Lines 1..n map to index line-1. Line 0 reaches Python's `lines[-1]`. |
| Strategies.EditLine | auto_fix_errors.py:325-358 | The edit succeeds exactly when the line number indexes the file (as Python's `lines[line - 1]`) and the rewrite of that line succeeds. It declines past the end of the file. On success exactly the reported line is replaced by its rewrite and all other lines are kept. |
| Fingerprints.TsRecord | auto_fix_errors.py:104-122 | A diagnostic becomes a `typescript` record with id `<file>:<line>:<digits>`, code `TS<digits>`, integer line and column, and stripped message. |
| Fingerprints.TsRecords | auto_fix_errors.py:103-122 | Each diagnostic match, in order, becomes its record. |
| Fingerprints.MissingRecords | auto_fix_errors.py:126-142 | Each missing-module match becomes a record with id `missing:<module>`. |
| Fingerprints.NoOutputRecords | auto_fix_errors.py:145-159 | Each no-output match becomes a record with the id `no_output:<app>`, whatever the file. |
| Fingerprints.LogCandidates | auto_fix_errors.py:98-159 | A log without `ERROR in` yields nothing. Otherwise it yields, position by position, the diagnostic records, then the missing-module records, then the no-output records, each kind in match order. |
| Fingerprints.RuntimeRecords | auto_fix_errors.py:181-190 | Each `ErrorLogger` entry becomes a `runtime` record with id `runtime:<id>`, where a missing id is the empty string. |
| Fingerprints.AdmitSpec | auto_fix_errors.py:112-123 | After a scan, the seen set is the old one plus every candidate id. The kept records are candidates with exactly the previously unseen ids, each id once. |
| Fingerprints.AdmitAppend | auto_fix_errors.py:88-164 | Scanning batches one after another, sharing the seen set, equals scanning their concatenation. |
| Fingerprints.RescanKeepsNothing | auto_fix_errors.py:112-123 | Candidates whose ids were all seen yield nothing, so an error is reported at most once over the fixer's lifetime. |
| Fingerprints.OneNoOutputPerApp | auto_fix_errors.py:148-159 | However many files fail to emit, one app yields at most one no-output record. |
| Fingerprints.FixedIdIsNeverCandidateId | auto_fix_errors.py:110 | The id a TypeScript fix records (`…:TS<code>`) never equals a candidate id (`…:<digits>`). The `fixed_errors` check therefore never skips a TypeScript error. |
| Fixer.LineFix | auto_fix_errors.py:299-317 | A line strategy exists exactly for TS2307, TS7006, TS2339 and TS2345. |
| Fixer.FixTypescriptError | auto_fix_errors.py:264-317 | The fix succeeds exactly when the file resolves to a known source, the code has a line strategy and that strategy's edit of the reported line succeeds. On success only the reported line of the resolved file changes, and the recorded id is `<path>:<line>:<code>`. |
| Fixer.Remediate | auto_fix_errors.py:197-262 | Runtime errors are never fixed. A missing module is fixed exactly when `npm install` succeeds. A no-emit error is fixed exactly when the app's tsconfig exists and holds the flag; the new tsconfig is then the `str.replace` of the flag and no other file changes. A TypeScript error goes to `fix_typescript_error`. |
| Fixer.RestartDirAsWritten | auto_fix_errors.py:490 | The as-written directory computation appends `-app` to every name but `container`. |
| Fixer.RestartTargetsMissingDirectory | auto_fix_errors.py:490 | Applied to the directory names the cycle passes, every restart except the container's targets a non-existent directory such as `data-grid-app-app`. |
| Fixer.ServiceDir | auto_fix_errors.py:490 | The corrected computation keeps every frontend directory name unchanged. |
| Fixer.ServiceNamesReachDirectories | auto_fix_errors.py:50-56 | Under the correction, each short service name still maps to its frontend directory. |
| Fixer.Step | auto_fix_errors.py:532-549 | An error already fixed is skipped. A declined fix changes nothing. A successful fix writes the fixed project, records the fix id, counts one fix and restarts the error's app directory. `fixed_errors` only grows. |
| Fixer.DispatchAccounting | auto_fix_errors.py:523-549 | Over a batch: one restart per fix, each of an app that had a non-runtime error in the batch. The fix count is at most the batch size, and `fixed_errors` only grows. |
| Fixer.DispatchIgnores | auto_fix_errors.py:532-549 | A batch of runtime errors, or of errors already fixed, changes nothing. |
| Fixer.Cycle | auto_fix_errors.py:519-580 | One cycle: the webpack scan's unseen errors are dispatched, then the runtime ids are marked seen. The seen and fixed sets only grow. |
| Fixer.RunFrom | auto_fix_errors.py:598-614 | The run from a state: a cycle per iteration until `max_iterations`, or until a zero-fix cycle ending at iteration 3 or later. The final iteration is the start plus the number of cycles, and no cycle runs from the bound. |
| Fixer.RunFromStops | auto_fix_errors.py:598-614 | The cycle counts of every run keep to the loop's stopping rule. |
| Fixer.RunFromGrows | auto_fix_errors.py:532-580 | A run never removes an id from `seen_errors` or `fixed_errors`. |
| Fixer.CycleOfGrows | auto_fix_errors.py:519-580 | Every cycle of a run only adds to the seen and fixed sets. |
| Fixer.RunLoopStep | auto_fix_errors.py:598-614 | One turn of the loop: the run so far followed by the run from before the cycle equals the run so far and this cycle followed by the run after it, or ends there when the cycle stops the loop. |
| Fixer.BusyRunReachesBound | auto_fix_errors.py:598-614 | A run in which every cycle applies a fix stops exactly at `max_iterations`. |
| Fixer.QuietRunStopsAfterThree | auto_fix_errors.py:598-614 | From a fresh fixer with at least three allowed iterations, a run with no fixes stops after exactly three cycles. |
| Fixer.SumPositive | auto_fix_errors.py:602-624 | The total is positive exactly when some cycle applied a fix. |
| Fixer.ErrorFixer.constructor | auto_fix_errors.py:42-48 | A new fixer is at iteration 0 with empty seen and fixed sets. |
| Fixer.ErrorFixer.Scan | auto_fix_errors.py:112-123 | One scanning loop computes exactly `Admit` on the seen set and leaves `fixed_errors` alone. |
| Fixer.ErrorFixer.ScanLog | auto_fix_errors.py:98-159 | The three loops over one log, sharing the seen set, compute `Admit` of the log's candidates. |
| Fixer.ErrorFixer.ScanApps | auto_fix_errors.py:88-164 | The loop over apps computes `Admit` of all their candidates in app order. |
| Fixer.ErrorFixer.GetWebpackErrors | auto_fix_errors.py:82-164 | The webpack scan over the five frontend directories returns the unseen candidates and marks them seen. |
| Fixer.ErrorFixer.GetRuntimeErrors | auto_fix_errors.py:166-195 | The runtime scan returns the unseen `runtime:` records and marks them seen. |
| Fixer.ErrorFixer.DispatchErrors | auto_fix_errors.py:532-549 | The dispatch loop's fix count, restarts, written project and new `fixed_errors` are those of `Dispatch` over the batch; the seen set and iteration are unchanged. |
| Fixer.ErrorFixer.RunFixCycle | auto_fix_errors.py:519-580 | One cycle's fixes, restarts, files written and new `fixed_errors` are those of `Dispatch` over the newly seen webpack errors, and runtime ids are added to the seen set; together this is `Cycle`. The fix count equals the number of restarts. |
| Fixer.ErrorFixer.Run | auto_fix_errors.py:582-624 | An unhealthy start changes nothing and returns false. Otherwise the final seen and fixed sets, iteration, files and per-cycle counts are exactly those of `RunFrom` over the cycles, so the counts satisfy the stopping rule. `iteration` advances by the number of cycles, the sets only grow, and the result is true exactly when some cycle fixed something. |
| Fixer.ErrorFixer.RunCycles | auto_fix_errors.py:596-614 | The loop reaches the state `RunFrom` predicts from its start, and `total_fixes` is the sum of the per-cycle counts. |
| Fixer.ErrorFixer.Turn | auto_fix_errors.py:599-612 | One pass of the loop advances the iteration by one and moves the run from the state before the cycle to the state after it. |
| Collections.Page | backend/mock-data-service/routers/errors.py:111 | `s[offset:offset+limit]`: at most `limit` elements, empty past the end, element i is `s[offset+i]`. |
| Collections.FirstIndex | backend/mock-data-service/routers/data.py:29 | `next(...)` over a generator: the first element satisfying the test, or none exactly when no element does. |
| Collections.Filter | backend/mock-data-service/routers/data.py:20-22 | A comprehension filter keeps exactly the elements that pass, and only elements of the input. |
| Collections.FilterCounts | backend/mock-data-service/routers/data.py:20-22 | Each element that passes occurs as often in the result as in the input; others do not occur. |
| Collections.FilterFilter | backend/mock-data-service/routers/data.py:19-22 | Filtering twice equals filtering once by the conjunction of the tests. |
| Collections.FilterAppend | backend/mock-data-service/routers/errors.py:80-105 | Filtering distributes over concatenation. |
| Collections.AssignSpec | backend/mock-data-service/routers/settings.py:17-18 | The loop `d[key] = value`: the keys are the old keys plus the supplied ones. A supplied key holds its last value and other keys keep theirs. |
| ErrorStore.NewRecord | backend/mock-data-service/routers/errors.py:43-46 | The stored record carries the generated id, the creation time and `resolved = False`, and the request's timestamp, type, message, stack, app name, url, user agent, component stack and severity. |
| ErrorStore.Capped | backend/mock-data-service/routers/errors.py:50-52 | The result keeps the newest `min(n, 1000)` records as a suffix. |
| ErrorStore.EmptyQueryMatchesAll | backend/mock-data-service/routers/errors.py:81-105 | With no filter in force (each string filter missing or empty, `resolved` missing, each time bound missing or 0), every record passes, whatever the query's other contents. |
| ErrorStore.FilterExcludesSome | backend/mock-data-service/routers/errors.py:81-102 | Conversely, a query with any filter in force (a non-empty string filter, a `resolved` value, or a non-zero time bound) turns some record away. |
| ErrorStore.InsertSorted | backend/mock-data-service/routers/errors.py:108 | Inserting into a newest-first list keeps it newest first. |
| ErrorStore.SortNewest | backend/mock-data-service/routers/errors.py:108 | The sort is a permutation and newest first, a missing timestamp counting as 0. |
| ErrorStore.SortNewestStable | backend/mock-data-service/routers/errors.py:108 | The sort is stable: records with equal timestamps keep their relative order. |
| ErrorStore.PageNewestFirst | backend/mock-data-service/routers/errors.py:111 | A page of a newest-first list is newest first. |
| ErrorStore.BumpSpec | backend/mock-data-service/routers/errors.py:136 | `d[k] = d.get(k, 0) + 1` adds one to k's count only, keeps keys distinct and adds one to the total. |
| ErrorStore.TallySpec | backend/mock-data-service/routers/errors.py:133-144 | The counts by key sum to the number of records. Each key's count is its number of occurrences. Keys are distinct. |
| ErrorStore.ApplyUpdate | backend/mock-data-service/routers/errors.py:191-192 | Only the fields the patch supplies change. |
| ErrorStore.UpdateIdentities | backend/mock-data-service/routers/errors.py:191-192 | An empty patch is the identity. Applying a patch twice equals applying it once. |
| ErrorStore.ResolveMatchingSpec | backend/mock-data-service/routers/errors.py:241-253 | After a bulk resolve, every matching record is resolved with its other fields kept, and every other record is unchanged. |
| ErrorStore.ResolveAgainFindsNothing | backend/mock-data-service/routers/errors.py:241-253 | A second bulk resolve with the same filters resolves nothing. |
| ErrorStore.ErrorLogStore.constructor | backend/mock-data-service/routers/errors.py:14-17 | A store without a file holds no records. |
| ErrorStore.ErrorLogStore.CreateErrorLog | backend/mock-data-service/routers/errors.py:37-60 | The new record is appended and the store capped at 1000, so the new record is last. The response echoes the id. |
| ErrorStore.ErrorLogStore.GetErrors | backend/mock-data-service/routers/errors.py:64-113 | The result is the page of the stably sorted filtered list. It has at most `limit` entries, is newest first, and each entry matches the query and is stored. |
| ErrorStore.ErrorLogStore.GetErrorStats | backend/mock-data-service/routers/errors.py:117-162 | The three tallies each sum to `total`. The resolved and recent counts are given. `unresolved = total - resolved`, which is never negative. |
| ErrorStore.ErrorLogStore.Find | backend/mock-data-service/routers/errors.py:172-174 | Finds the first index with the id, or none exactly when no record has it. |
| ErrorStore.ErrorLogStore.GetError | backend/mock-data-service/routers/errors.py:166-176 | Returns a stored record with the id. The 404 "Error not found" happens exactly when there is none. |
| ErrorStore.ErrorLogStore.UpdateError | backend/mock-data-service/routers/errors.py:182-197 | The first record with the id is patched in place and all others are kept. A 404 leaves the store unchanged. |
| ErrorStore.ErrorLogStore.DeleteError | backend/mock-data-service/routers/errors.py:203-215 | Exactly the first record with the id is removed and the rest keep their order. A 404 leaves the store unchanged. |
| ErrorStore.ErrorLogStore.ClearAllErrors | backend/mock-data-service/routers/errors.py:221-226 | The store becomes empty. |
| ErrorStore.ErrorLogStore.BulkResolveErrors | backend/mock-data-service/routers/errors.py:230-260 | The records become `ResolveMatching`. The count is the number of newly resolved records, and the message states it. |
| ErrorStore.ErrorLogStore.ExportErrors | backend/mock-data-service/routers/errors.py:264-273 | The export holds every record and their number. |
| Accounts.Hashed | backend/mock-data-service/auth/user_store.py:48-56 | A stored demo user keeps its id, email, username, full name, role and active flag, and has the hash in place of the password. |
| Accounts.SeedContents | backend/mock-data-service/auth/user_store.py:16-59 | Seeding stores exactly the three demo emails. Each holds its demo user, hashed, active, with id i+1. |
| Accounts.UserStore.constructor | backend/mock-data-service/auth/user_store.py:11-14 | A new store holds exactly the seeded demo users. |
| Accounts.UserStore.SeedDemoUsers | backend/mock-data-service/auth/user_store.py:16-59 | Seeding overwrites the three demo emails and keeps other users. |
| Accounts.UserStore.GetUserByEmail | backend/mock-data-service/auth/user_store.py:61-71 | Returns the user under the email, or none exactly when the email is absent. |
| Accounts.UserStore.GetUserById | backend/mock-data-service/auth/user_store.py:73-86 | Returns the first user in insertion order with the id. There is none exactly when no user has it. |
| Accounts.RefreshTokenStore.constructor | backend/mock-data-service/auth/user_store.py:96-98 | A new token store is empty. |
| Accounts.RefreshTokenStore.StoreToken | backend/mock-data-service/auth/user_store.py:100-111 | The token becomes valid for the user and other tokens are unchanged. |
| Accounts.RefreshTokenStore.RevokeToken | backend/mock-data-service/auth/user_store.py:125-133 | The token becomes invalid, others are kept, and an absent token changes nothing. |
| Accounts.RefreshTokenStore.RevokeAllUserTokens | backend/mock-data-service/auth/user_store.py:135-147 | The new token map is the old one minus exactly the user's tokens, so each of them is no longer valid, and every other user's tokens are kept with their owner. |
| AuthDeps.ToUserAuth | backend/mock-data-service/auth/dependencies.py:58-65 | The authenticated view carries the stored user's public fields. |
| AuthDeps.GetCurrentUser | backend/mock-data-service/auth/dependencies.py:15-65 | Failures in guard order: undecodable 401 with challenge, unknown 401, inactive 403. Success happens exactly for an active stored subject. |
| AuthDeps.GetCurrentActiveUser | backend/mock-data-service/auth/dependencies.py:68-88 | A 403 happens exactly for an inactive user. Otherwise the user passes unchanged. |
| AuthDeps.ActiveGuardIsRedundant | backend/mock-data-service/auth/dependencies.py:52-88 | On top of `get_current_user`, the active-user guard never fires. |
| AuthDeps.GetOptionalCurrentUser | backend/mock-data-service/auth/dependencies.py:91-127 | The result is none without a `Bearer ` header. Otherwise a user is returned exactly when the strict check accepts the token with the prefix removed. |
| AuthDeps.OptionalAgreesWithStrict | backend/mock-data-service/auth/dependencies.py:106-110 | For `Bearer <t>` where t does not contain the prefix, the optional check accepts exactly the users the strict check accepts. |
| AuthRouter.PayloadOf | backend/mock-data-service/routers/auth.py:58-62 | The token payload is the user's email, id and role. |
| AuthRouter.CheckLogin | backend/mock-data-service/routers/auth.py:35-55 | An unknown email and a wrong password both give the same 401. The 403 happens exactly for a matching password on an inactive account. Success happens exactly otherwise. |
| AuthRouter.CheckRefresh | backend/mock-data-service/routers/auth.py:105-127 | Revoked first, then undecodable, then unknown or inactive. Every refusal is a 401. Success returns the token's active user. |
| AuthRouter.Login | backend/mock-data-service/routers/auth.py:19-84 | A failure leaves the token store unchanged. Success mints both tokens from the user's payload and stores the refresh token for the user's id. |
| AuthRouter.Refresh | backend/mock-data-service/routers/auth.py:87-159 | A failure changes nothing. Success removes the presented token, then stores the new one for the same user. |
| AuthRouter.Logout | backend/mock-data-service/routers/auth.py:162-185 | Without a valid access token nothing changes. Otherwise the presented refresh token is revoked, whoever owns it. |
| AuthRouter.GetCurrentUserInfo | backend/mock-data-service/routers/auth.py:188-199 | Returns the authenticated user, who is always active. |
| AuthRouter.GetDemoUsers | backend/mock-data-service/routers/auth.py:202-229 | The published credentials are the seeded demo users' emails, passwords and roles. |
| AuthRouter.DemoCredentialsLogIn | backend/mock-data-service/routers/auth.py:202-229 | Each published credential passes the login guards on a fresh store, with its published role. |
| Tables.MaxId | backend/mock-data-service/routers/data.py:37 | `max(ids, default=0)` bounds every id and is attained unless the table is empty. |
| Tables.NextId | backend/mock-data-service/routers/data.py:37 | The new id exceeds every existing id, is one more than an existing id when the table is not empty, and is 1 in an empty table. |
| Tables.NewRow | backend/mock-data-service/routers/data.py:38-43 | The new row has the new id, the request fields, and both timestamps. |
| Tables.Table.All | backend/mock-data-service/routers/users.py:9-12 | Returns the whole table. |
| Tables.Table.Get | backend/mock-data-service/routers/data.py:26-32 | Returns the first row with the id, or the table's 404 exactly when there is none. |
| Tables.Table.Create | backend/mock-data-service/routers/users.py:22-33 | Appends the new row, whose id exceeds all others. |
| Tables.Table.Update | backend/mock-data-service/routers/data.py:47-59 | The first row with the id gets the supplied fields then a fresh `updated_at`, and other rows are untouched. The 404 case leaves the table unchanged. |
| Tables.Table.Delete | backend/mock-data-service/routers/data.py:61-70 | A 404 happens exactly when the id is absent. Otherwise every row with the id is dropped and the rest keep their order. |
| Tables.ListRows | backend/mock-data-service/routers/data.py:9-24 | The result is the `[skip:skip + limit]` page of the rows that pass every truthy filter, in table order. It has at most `limit` rows, each stored and matching every truthy filter. |
| Tables.WantedFilters | backend/mock-data-service/routers/data.py:17-22 | The category comprehension followed by the status comprehension, each applied only when its filter is truthy, keeps exactly the rows passing both tests, in order. |
| Settings.Fields | backend/mock-data-service/routers/settings.py:16 | The update's fields in declaration order, each under its settings key. |
| Settings.SetItemsSpec | backend/mock-data-service/routers/settings.py:16-18 | `dict(exclude_unset=True)` supplies exactly the set fields, and nothing when none is set. |
| Settings.FieldNames | backend/mock-data-service/routers/settings.py:16 | The update's keys are distinct and never `id`. |
| Settings.UpdateSpec | backend/mock-data-service/routers/settings.py:12-19 | An update sets each supplied field and keeps `id` and every other key. |
| Settings.EmptyUpdateIsIdentity | backend/mock-data-service/routers/settings.py:12-19 | An empty update changes nothing. |
| Settings.Defaults | backend/mock-data-service/routers/settings.py:25-37 | The defaults hold every settings key and `id = 1`. |
| Settings.SettingsStore.constructor | backend/mock-data-service/mock_data.py:10-22 | The initial settings are the defaults. |
| Settings.SettingsStore.Get | backend/mock-data-service/routers/settings.py:7-10 | Returns the current settings. |
| Settings.SettingsStore.Update | backend/mock-data-service/routers/settings.py:12-19 | The settings become the old ones with the supplied fields assigned. Other keys are kept. |
| Settings.SettingsStore.Reset | backend/mock-data-service/routers/settings.py:21-38 | The settings become the defaults, with `id = 1`. |

## Left out

- I/O is left out: reading and writing log files, `tsconfig.json` and source files, the JSON store file, and its load/save error paths (the 500 responses). Files are values passed in and returned.
- Extracting matches from log text is left out: the multi-line `re.finditer` patterns are replaced by the sequence of matches they produce (`AppLog`). The fingerprinting of each match is modelled.
- Path resolution in `fix_typescript_error` is left out: the three candidate paths and `exists()` checks are an input `locate`.
- `npm install`, `pkill`, `npm start` (`Popen`), `time.sleep` and `asyncio.sleep` are left out. The install's success is an input. A restart is recorded as the directory `ServiceDir` gives, the corrected directory of the Findings, not the one `restart_service` as written would target.
- Fingerprints.RuntimeId: an entry whose `id` is present but JSON `null` is not modelled. Python's `error.get('id', '')` then gives `None` and the id `runtime:None`; the model's optional id cannot be present and null, and gives `runtime:` for a missing id.
- Playwright is left out: the browser, page navigation and `ErrorLogger` evaluation are an input list of entries; a failure there is the empty list.
- The health probe in `check_services_health` is a boolean input.
- Logging is left out.
- `\w`, `\d` and `\s` are ASCII-only in the model; Python's `re` also matches other Unicode letters, digits and spaces.
- The clock (`datetime.now()`), `uuid4` and the five-minute threshold are parameters.
- bcrypt hashing and verification are parameters, including their random salts. So are JWT creation and decoding, including expiry.
- Cookies (`set_cookie`, `delete_cookie`), FastAPI's `HTTPBearer` header parsing and pydantic validation are left out, including `EmailStr` and `ge`/`le`. Validated values are preconditions, such as `1 <= limit <= 1000`.
- models/user.py is not part of this model. A user or data-row patch is assumed never to supply `id`.
- Rows lacking an integer `id` are excluded by the table invariant; Python would raise `KeyError` or compare wrongly on them.
- Tables.ListRows: a row lacking `category` or `status` counts as not matching that filter, where Python raises `KeyError` (a 500 response).
- A client sending an explicit JSON `null` in a patch is left out: such a field counts as supplied with `None` in Python.
- Only the `ErrorLogUpdate` fields `message`, `severity` and `resolved` are modelled.
- The optional `props` dictionary of an error log is left out. `create_error_log` stores it unchanged and `export_errors` returns it, but nothing reads it; the model's records have no such field.
- Analytics, mock data generation and the rest of the repository are not part of this model.
- Tables.NewRow: both timestamps come from one clock reading, where Python calls `datetime.now()` twice and the two may differ by microseconds.
- Accounts.UserStore.SeedDemoUsers: the insertion order of the three seeded emails is not stated as a postcondition; only the resulting map and the order invariant are.
- AuthRouter.Refresh: the presented token ends up invalid only when the new refresh token differs from it. Two tokens minted from the same payload in the same second can be equal, and then the old token stays valid.
- Strategies.AnnotateIdempotent: stated only for parameter names other than `any` (see Strategies.AnyParameterReannotated).
- Fixer.ErrorFixer.Run: the fix counts are a ghost result. The lemmas about them (Fixer.BusyRunReachesBound, Fixer.QuietRunStopsAfterThree) state how the loop stops.

## Findings

| source | as written | input that shows it | evidently intended | confidence | as-written member | corrected member |
|---|---|---|---|---|---|---|
| auto_fix_errors.py:490 | `restart_service` appends `-app` to every name but `container`, but `run_fix_cycle` passes the error's `app`, which is already a directory name | an error in `data-grid-app` restarts `frontend/data-grid-app-app` | restart the app's own directory, whichever spelling the caller uses | high (not executed) | Fixer.RestartDirAsWritten, Fixer.RestartTargetsMissingDirectory | Fixer.ServiceDir, Fixer.ServiceNamesReachDirectories |
