/** The error-log store of the mock data service: a list of error records
    (the contents of its JSON store file) with create, filtered and paged
    listing, statistics, lookup, partial update, delete, clear and bulk
    resolve. */
module ErrorStore {
  import opened Common
  import opened Text
  import opened Collections

  /** At most this many records are kept; older ones are dropped first. */
  const MaxStored: nat := 1000

  /** A stored error record. Fields the router reads with `dict.get` may be
      missing from a record loaded from the store file, so they are options. */
  datatype ErrorLog = ErrorLog(
    id: Option<string>,
    timestamp: Option<int>,
    kind: Option<string>,
    message: Option<string>,
    stack: Option<string>,
    appName: Option<string>,
    url: Option<string>,
    userAgent: Option<string>,
    componentStack: Option<string>,
    severity: Option<string>,
    createdAt: Option<string>,
    resolved: Option<bool>)

  /** The body of a create request; `severity` already holds its default. */
  datatype ErrorLogCreate = ErrorLogCreate(
    timestamp: int,
    kind: string,
    message: string,
    stack: Option<string>,
    appName: string,
    url: string,
    userAgent: string,
    componentStack: Option<string>,
    severity: string)

  /** The body of a patch request: `Some` marks a field the client supplied. */
  datatype ErrorLogUpdate = ErrorLogUpdate(message: Option<string>, severity: Option<string>, resolved: Option<bool>)

  datatype ErrorLogResponse = ErrorLogResponse(id: string, saved: bool, message: string)

  /** Query parameters of the listing. */
  datatype ErrorQuery = ErrorQuery(
    kind: Option<string>,
    appName: Option<string>,
    severity: Option<string>,
    resolved: Option<bool>,
    startTime: Option<int>,
    endTime: Option<int>)

  /** Per-key counts in first-seen order, as a Python dict built by counting. */
  type Counts = seq<(string, nat)>

  datatype ErrorStats = ErrorStats(
    total: nat,
    byType: Counts,
    byApp: Counts,
    bySeverity: Counts,
    recent: nat,
    resolved: nat,
    unresolved: int)

  /** The record a create request stores under a fresh id and creation time. */
  function NewRecord(e: ErrorLogCreate, id: string, createdAt: string): (r: ErrorLog)
    ensures r.id == Some(id) && r.resolved == Some(false)
    ensures r.kind == Some(e.kind) && r.appName == Some(e.appName) && r.severity == Some(e.severity)
    ensures r.timestamp == Some(e.timestamp) && r.createdAt == Some(createdAt)
    ensures r.message == Some(e.message) && r.url == Some(e.url) && r.userAgent == Some(e.userAgent)
    ensures r.stack == e.stack && r.componentStack == e.componentStack
  {
    ErrorLog(Some(id), Some(e.timestamp), Some(e.kind), Some(e.message), e.stack, Some(e.appName),
             Some(e.url), Some(e.userAgent), e.componentStack, Some(e.severity), Some(createdAt), Some(false))
  }

  /** Keeps only the newest `MaxStored` records. */
  function Capped(rs: seq<ErrorLog>): (r: seq<ErrorLog>)
    ensures |r| == Min(|rs|, MaxStored)
    ensures r == rs[|rs| - |r|..]
  {
    if |rs| > MaxStored then rs[|rs| - MaxStored..] else rs
  }

  // ---------------------------------------------------------------------
  // Filtering

  /** A string or integer filter takes part only when it is truthy: `None`,
      the empty string and the time bound 0 switch it off. */
  predicate Supplied(f: Option<string>) {
    f.Some? && f.value != ""
  }

  predicate TimeSupplied(t: Option<int>) {
    t.Some? && t.value != 0
  }

  /** The sort key and time-filter key: a missing timestamp counts as 0. */
  function Stamp(e: ErrorLog): int {
    e.timestamp.GetOr(0)
  }

  /** Whether a record passes every guard of the listing's filter loop. */
  predicate Matches(e: ErrorLog, q: ErrorQuery) {
    && (Supplied(q.kind) ==> e.kind == q.kind)
    && (Supplied(q.appName) ==> e.appName == q.appName)
    && (Supplied(q.severity) ==> e.severity == q.severity)
    && (q.resolved.Some? ==> e.resolved.GetOr(false) == q.resolved.value)
    && (TimeSupplied(q.startTime) ==> Stamp(e) >= q.startTime.value)
    && (TimeSupplied(q.endTime) ==> Stamp(e) <= q.endTime.value)
  }

  function Matcher(q: ErrorQuery): ErrorLog -> bool {
    e => Matches(e, q)
  }

  /** No filter is in force: every string filter is missing or empty,
      `resolved` is missing, and each time bound is missing or 0. */
  predicate NoFilter(q: ErrorQuery) {
    !Supplied(q.kind) && !Supplied(q.appName) && !Supplied(q.severity) && q.resolved.None?
    && !TimeSupplied(q.startTime) && !TimeSupplied(q.endTime)
  }

  /** A query that supplies no filter lets every record through. */
  lemma EmptyQueryMatchesAll(e: ErrorLog, q: ErrorQuery)
    requires NoFilter(q)
    ensures Matches(e, q)
  {
  }

  /** A query with any filter in force turns some record away. */
  lemma {:induction false} FilterExcludesSome(q: ErrorQuery)
    requires !NoFilter(q)
    ensures exists e :: !Matches(e, q)
  {
    var blank := ErrorLog(None, None, None, None, None, None, None, None, None, None, None, None);
    if Supplied(q.kind) || Supplied(q.appName) || Supplied(q.severity) {
      assert !Matches(blank, q);
    } else if q.resolved.Some? {
      var e := blank.(resolved := Some(!q.resolved.value));
      assert !Matches(e, q);
    } else if TimeSupplied(q.startTime) {
      var e := blank.(timestamp := Some(q.startTime.value - 1));
      assert !Matches(e, q);
    } else {
      var e := blank.(timestamp := Some(q.endTime.value + 1));
      assert !Matches(e, q);
    }
  }

  // ---------------------------------------------------------------------
  // Sorting newest first, stably (Python's `list.sort(key=..., reverse=True)`)

  predicate NewestFirst(s: seq<ErrorLog>) {
    forall i, j :: 0 <= i < j < |s| ==> Stamp(s[i]) >= Stamp(s[j])
  }

  /** Places `x` after every record of `s` whose stamp is at least its own. */
  function InsertNewest(x: ErrorLog, s: seq<ErrorLog>): (r: seq<ErrorLog>)
    ensures multiset(r) == multiset(s) + multiset{x}
    ensures |r| == |s| + 1
    decreases |s|
  {
    if s == [] then [x]
    else if Stamp(s[0]) >= Stamp(x) then
      assert s == [s[0]] + s[1..];
      [s[0]] + InsertNewest(x, s[1..])
    else [x] + s
  }

  lemma TailNewestFirst(s: seq<ErrorLog>)
    requires s != [] && NewestFirst(s)
    ensures NewestFirst(s[1..])
  {
    forall i, j | 0 <= i < j < |s[1..]| ensures Stamp(s[1..][i]) >= Stamp(s[1..][j]) {
      assert s[1..][i] == s[i + 1] && s[1..][j] == s[j + 1];
    }
  }

  /** Every record of `s` is stamped no later than `b`. */
  ghost predicate NoLaterThan(s: seq<ErrorLog>, b: int) {
    forall e | e in s :: Stamp(e) <= b
  }

  /** In a newest-first list, the head is stamped no earlier than the rest. */
  lemma HeadIsNewest(s: seq<ErrorLog>)
    requires s != [] && NewestFirst(s)
    ensures NoLaterThan(s[1..], Stamp(s[0]))
  {
    forall e | e in s[1..] ensures Stamp(e) <= Stamp(s[0]) {
      var j :| 0 <= j < |s[1..]| && s[1..][j] == e;
      assert s[j + 1] == e;
    }
  }

  /** Inserting a record no later than `b` keeps every stamp no later than `b`. */
  lemma InsertNoLaterThan(x: ErrorLog, s: seq<ErrorLog>, b: int)
    requires NoLaterThan(s, b) && Stamp(x) <= b
    ensures NoLaterThan(InsertNewest(x, s), b)
  {
    var r := InsertNewest(x, s);
    forall e | e in r ensures Stamp(e) <= b {
      assert e in multiset(r);
      if e != x {
        assert e in multiset(s);
      }
    }
  }

  /** A record no earlier than every record of a newest-first list may lead it. */
  lemma ConsNewestFirst(a: ErrorLog, r: seq<ErrorLog>)
    requires NewestFirst(r) && NoLaterThan(r, Stamp(a))
    ensures NewestFirst([a] + r)
  {
    var t := [a] + r;
    forall i, j | 0 <= i < j < |t| ensures Stamp(t[i]) >= Stamp(t[j]) {
      assert t[j] == r[j - 1];
      if i > 0 {
        assert t[i] == r[i - 1];
      } else {
        assert r[j - 1] in r;
      }
    }
  }

  /** Inserting into a newest-first list keeps it newest first. */
  lemma {:induction false} InsertSorted(x: ErrorLog, s: seq<ErrorLog>)
    requires NewestFirst(s)
    ensures NewestFirst(InsertNewest(x, s))
    decreases |s|
  {
    if s != [] && Stamp(s[0]) >= Stamp(x) {
      TailNewestFirst(s);
      InsertSorted(x, s[1..]);
      HeadIsNewest(s);
      InsertNoLaterThan(x, s[1..], Stamp(s[0]));
      ConsNewestFirst(s[0], InsertNewest(x, s[1..]));
    } else if s != [] {
      HeadIsNewest(s);
      assert NoLaterThan(s, Stamp(x)) by {
        forall e | e in s ensures Stamp(e) <= Stamp(x) {
          if e != s[0] {
            assert e in s[1..];
          }
        }
      }
      ConsNewestFirst(x, s);
    }
  }

  function SortNewest(s: seq<ErrorLog>): (r: seq<ErrorLog>)
    ensures multiset(r) == multiset(s)
    ensures |r| == |s|
    ensures NewestFirst(r)
    decreases |s|
  {
    if s == [] then []
    else
      assert s == s[..|s| - 1] + [s[|s| - 1]];
      var sorted := SortNewest(s[..|s| - 1]);
      InsertSorted(s[|s| - 1], sorted);
      InsertNewest(s[|s| - 1], sorted)
  }

  function HasStamp(t: int): ErrorLog -> bool {
    e => Stamp(e) == t
  }

  /** The records with stamp `t`, in their order in `s`. */
  function SameStamp(s: seq<ErrorLog>, t: int): seq<ErrorLog> {
    Filter(s, HasStamp(t))
  }

  lemma {:induction false} NoneWithStamp(s: seq<ErrorLog>, t: int)
    requires forall i :: 0 <= i < |s| ==> Stamp(s[i]) != t
    ensures SameStamp(s, t) == []
    decreases |s|
  {
    if s != [] {
      NoneWithStamp(s[..|s| - 1], t);
    }
  }

  /** A record newer than everything in `s`, put in front, comes after the
      records of its own stamp, because `s` has none. */
  lemma InsertFrontStable(x: ErrorLog, s: seq<ErrorLog>, t: int)
    requires NewestFirst(s) && s != [] && Stamp(s[0]) < Stamp(x)
    ensures SameStamp([x] + s, t) == SameStamp(s, t) + (if Stamp(x) == t then [x] else [])
  {
    FilterAppend([x], s, HasStamp(t));
    assert [x][..0] == [];
    if Stamp(x) == t {
      forall i | 0 <= i < |s| ensures Stamp(s[i]) != t {
        if i > 0 { assert Stamp(s[0]) >= Stamp(s[i]); }
      }
      NoneWithStamp(s, t);
    }
  }

  /** Inserting behind the head of `s` keeps the head in front. */
  lemma InsertBehindHead(x: ErrorLog, s: seq<ErrorLog>)
    requires s != [] && Stamp(s[0]) >= Stamp(x)
    ensures InsertNewest(x, s) == [s[0]] + InsertNewest(x, s[1..])
  {
  }

  /** Splitting off the first record before selecting a stamp. */
  lemma SameStampCons(a: ErrorLog, r: seq<ErrorLog>, t: int)
    ensures SameStamp([a] + r, t) == SameStamp([a], t) + SameStamp(r, t)
  {
    FilterAppend([a], r, HasStamp(t));
  }

  lemma ConcatAssoc<T>(a: seq<T>, b: seq<T>, c: seq<T>)
    ensures a + (b + c) == (a + b) + c
  {
  }

  /** A record no newer than the head of `s` goes behind it, so the head's
      place among the records of its stamp is unchanged. */
  lemma InsertBehindStable(x: ErrorLog, s: seq<ErrorLog>, t: int)
    requires s != [] && Stamp(s[0]) >= Stamp(x)
    requires SameStamp(InsertNewest(x, s[1..]), t) == SameStamp(s[1..], t) + (if Stamp(x) == t then [x] else [])
    ensures SameStamp(InsertNewest(x, s), t) == SameStamp(s, t) + (if Stamp(x) == t then [x] else [])
  {
    InsertBehindHead(x, s);
    SameStampCons(s[0], InsertNewest(x, s[1..]), t);
    SameStampCons(s[0], s[1..], t);
    assert s == [s[0]] + s[1..];
    ConcatAssoc(SameStamp([s[0]], t), SameStamp(s[1..], t), if Stamp(x) == t then [x] else []);
  }

  lemma {:induction false} InsertStable(x: ErrorLog, s: seq<ErrorLog>, t: int)
    requires NewestFirst(s)
    ensures SameStamp(InsertNewest(x, s), t) == SameStamp(s, t) + (if Stamp(x) == t then [x] else [])
    decreases |s|
  {
    if s == [] {
      assert [x][..0] == [];
    } else if Stamp(s[0]) >= Stamp(x) {
      TailNewestFirst(s);
      InsertStable(x, s[1..], t);
      InsertBehindStable(x, s, t);
    } else {
      assert InsertNewest(x, s) == [x] + s;
      InsertFrontStable(x, s, t);
    }
  }

  /** The sort is stable: the records sharing a stamp keep their order. */
  lemma {:induction false} SortNewestStable(s: seq<ErrorLog>, t: int)
    ensures SameStamp(SortNewest(s), t) == SameStamp(s, t)
    decreases |s|
  {
    if s != [] {
      var init := s[..|s| - 1];
      SortNewestStable(init, t);
      InsertStable(s[|s| - 1], SortNewest(init), t);
    }
  }

  /** Any slice of a newest-first list is newest first. */
  lemma PageNewestFirst(s: seq<ErrorLog>, offset: nat, limit: nat)
    requires NewestFirst(s)
    ensures NewestFirst(Page(s, offset, limit))
  {
    var r := Page(s, offset, limit);
    forall i, j | 0 <= i < j < |r| ensures Stamp(r[i]) >= Stamp(r[j]) {
      assert r[i] == s[offset + i] && r[j] == s[offset + j];
    }
  }

  // ---------------------------------------------------------------------
  // Statistics

  /** `counts[k] = counts.get(k, 0) + 1` on a dict kept in insertion order. */
  function Bump(t: Counts, k: string): (r: Counts)
    ensures |r| >= 1
    decreases |t|
  {
    if t == [] then [(k, 1)]
    else if t[0].0 == k then [(k, t[0].1 + 1)] + t[1..]
    else [t[0]] + Bump(t[1..], k)
  }

  /** `counts.get(k, 0)` */
  function CountOf(t: Counts, k: string): nat
    decreases |t|
  {
    if t == [] then 0 else if t[0].0 == k then t[0].1 else CountOf(t[1..], k)
  }

  /** The sum of a dict's counts. */
  function Total(t: Counts): nat
    decreases |t|
  {
    if t == [] then 0 else t[0].1 + Total(t[1..])
  }

  predicate DistinctKeys(t: Counts) {
    forall i, j :: 0 <= i < j < |t| ==> t[i].0 != t[j].0
  }

  /** Counting the records of `rs` by the key `key` picks. */
  function Tally(rs: seq<ErrorLog>, key: ErrorLog -> string): Counts
    decreases |rs|
  {
    if rs == [] then [] else Bump(Tally(rs[..|rs| - 1], key), key(rs[|rs| - 1]))
  }

  /** How many records of `rs` have key `k`. */
  function Occurrences(rs: seq<ErrorLog>, key: ErrorLog -> string, k: string): nat
    decreases |rs|
  {
    if rs == [] then 0
    else Occurrences(rs[..|rs| - 1], key, k) + (if key(rs[|rs| - 1]) == k then 1 else 0)
  }

  lemma {:induction false} BumpSpec(t: Counts, k: string)
    ensures Total(Bump(t, k)) == Total(t) + 1
    ensures forall j :: CountOf(Bump(t, k), j) == CountOf(t, j) + (if j == k then 1 else 0)
    ensures DistinctKeys(t) ==> DistinctKeys(Bump(t, k))
    ensures forall i :: 0 <= i < |Bump(t, k)| ==> Bump(t, k)[i].0 == k || HasKey(t, Bump(t, k)[i].0)
  {
    BumpTotal(t, k);
    BumpCount(t, k);
    BumpKeys(t, k);
    if DistinctKeys(t) {
      BumpDistinct(t, k);
    }
  }

  /** Some entry of `t` has the key `x`. */
  ghost predicate HasKey(t: Counts, x: string) {
    exists m :: 0 <= m < |t| && t[m].0 == x
  }

  /** Bumping adds one to the total. */
  lemma {:induction false} BumpTotal(t: Counts, k: string)
    ensures Total(Bump(t, k)) == Total(t) + 1
    decreases |t|
  {
    if t != [] {
      var r := Bump(t, k);
      if t[0].0 != k {
        BumpTotal(t[1..], k);
        assert r[1..] == Bump(t[1..], k);
      } else {
        assert r[1..] == t[1..];
      }
    }
  }

  /** Bumping adds one to `k`'s count and leaves every other count alone. */
  lemma {:induction false} BumpCount(t: Counts, k: string)
    ensures forall j :: CountOf(Bump(t, k), j) == CountOf(t, j) + (if j == k then 1 else 0)
    decreases |t|
  {
    if t != [] {
      var r := Bump(t, k);
      if t[0].0 != k {
        BumpCount(t[1..], k);
        assert r[1..] == Bump(t[1..], k);
      } else {
        assert r[1..] == t[1..];
      }
    }
  }

  /** Bumping introduces no key but `k`. */
  lemma {:induction false} BumpKeys(t: Counts, k: string)
    ensures forall i :: 0 <= i < |Bump(t, k)| ==> Bump(t, k)[i].0 == k || HasKey(t, Bump(t, k)[i].0)
    decreases |t|
  {
    if t != [] {
      var r := Bump(t, k);
      if t[0].0 != k {
        var b := Bump(t[1..], k);
        BumpKeys(t[1..], k);
        forall i | 0 <= i < |r| ensures r[i].0 == k || HasKey(t, r[i].0) {
          if i == 0 {
            assert t[0].0 == r[0].0;
          } else {
            assert r[i] == b[i - 1];
            if b[i - 1].0 != k {
              var m :| 0 <= m < |t[1..]| && t[1..][m].0 == b[i - 1].0;
              assert t[m + 1].0 == r[i].0;
            }
          }
        }
      } else {
        forall i | 0 <= i < |r| ensures r[i].0 == k || HasKey(t, r[i].0) {
          if i > 0 {
            assert r[i] == t[i];
          }
        }
      }
    }
  }

  /** Bumping keeps the keys distinct. */
  lemma {:induction false} BumpDistinct(t: Counts, k: string)
    requires DistinctKeys(t)
    ensures DistinctKeys(Bump(t, k))
    decreases |t|
  {
    if t != [] {
      var r := Bump(t, k);
      if t[0].0 != k {
        var b := Bump(t[1..], k);
        assert DistinctKeys(t[1..]) by {
          forall i, j | 0 <= i < j < |t[1..]| ensures t[1..][i].0 != t[1..][j].0 {
            assert t[1..][i] == t[i + 1] && t[1..][j] == t[j + 1];
          }
        }
        BumpDistinct(t[1..], k);
        BumpKeys(t[1..], k);
        forall i, j | 0 <= i < j < |r| ensures r[i].0 != r[j].0 {
          assert r[j] == b[j - 1];
          if i == 0 {
            if b[j - 1].0 != k {
              var m :| 0 <= m < |t[1..]| && t[1..][m].0 == b[j - 1].0;
              assert t[m + 1].0 == r[j].0;
            }
          } else {
            assert r[i] == b[i - 1];
          }
        }
      } else {
        forall i, j | 0 <= i < j < |r| ensures r[i].0 != r[j].0 {
          assert r[j] == t[j];
          if i > 0 {
            assert r[i] == t[i];
          }
        }
      }
    }
  }

  /** The counts of a tally sum to the number of records counted, each key's
      count is its number of occurrences, and each key appears once. */
  lemma {:induction false} TallySpec(rs: seq<ErrorLog>, key: ErrorLog -> string)
    ensures Total(Tally(rs, key)) == |rs|
    ensures forall k :: CountOf(Tally(rs, key), k) == Occurrences(rs, key, k)
    ensures DistinctKeys(Tally(rs, key))
    decreases |rs|
  {
    if rs != [] {
      TallySpec(rs[..|rs| - 1], key);
      BumpSpec(Tally(rs[..|rs| - 1], key), key(rs[|rs| - 1]));
    }
  }

  function TypeKey(e: ErrorLog): string {
    e.kind.GetOr("unknown")
  }

  function AppKey(e: ErrorLog): string {
    e.appName.GetOr("unknown")
  }

  function SeverityKey(e: ErrorLog): string {
    e.severity.GetOr("medium")
  }

  /** The number of records `rs` marks resolved. */
  function ResolvedCount(rs: seq<ErrorLog>): (n: nat)
    ensures n <= |rs|
    decreases |rs|
  {
    if rs == [] then 0
    else ResolvedCount(rs[..|rs| - 1]) + (if rs[|rs| - 1].resolved.GetOr(false) then 1 else 0)
  }

  /** The number of records stamped at or after `since`. */
  function RecentCount(rs: seq<ErrorLog>, since: int): (n: nat)
    ensures n <= |rs|
    decreases |rs|
  {
    if rs == [] then 0
    else RecentCount(rs[..|rs| - 1], since) + (if Stamp(rs[|rs| - 1]) >= since then 1 else 0)
  }

  // ---------------------------------------------------------------------
  // Update and bulk resolve

  /** Sets the fields an update supplies and keeps every other field. */
  function ApplyUpdate(e: ErrorLog, u: ErrorLogUpdate): (r: ErrorLog)
    ensures r.message == (if u.message.Some? then u.message else e.message)
    ensures r.severity == (if u.severity.Some? then u.severity else e.severity)
    ensures r.resolved == (if u.resolved.Some? then u.resolved else e.resolved)
    ensures r.(message := e.message, severity := e.severity, resolved := e.resolved) == e
  {
    e.(message := if u.message.Some? then u.message else e.message,
       severity := if u.severity.Some? then u.severity else e.severity,
       resolved := if u.resolved.Some? then u.resolved else e.resolved)
  }

  /** An update that supplies nothing changes nothing, and applying the same
      update twice is the same as applying it once. */
  lemma UpdateIdentities(e: ErrorLog, u: ErrorLogUpdate)
    ensures ApplyUpdate(e, ErrorLogUpdate(None, None, None)) == e
    ensures ApplyUpdate(ApplyUpdate(e, u), u) == ApplyUpdate(e, u)
  {
  }

  /** The filters of a bulk resolve, with the same truthiness rule. */
  predicate BulkMatches(e: ErrorLog, kind: Option<string>, appName: Option<string>, severity: Option<string>) {
    && (Supplied(kind) ==> e.kind == kind)
    && (Supplied(appName) ==> e.appName == appName)
    && (Supplied(severity) ==> e.severity == severity)
  }

  /** What bulk resolve does to one record. */
  function ResolveOne(e: ErrorLog, kind: Option<string>, appName: Option<string>, severity: Option<string>): ErrorLog {
    if BulkMatches(e, kind, appName, severity) && !e.resolved.GetOr(false) then e.(resolved := Some(true)) else e
  }

  function ResolveMatching(rs: seq<ErrorLog>, kind: Option<string>, appName: Option<string>, severity: Option<string>): (r: seq<ErrorLog>)
    ensures |r| == |rs|
  {
    seq(|rs|, i requires 0 <= i < |rs| => ResolveOne(rs[i], kind, appName, severity))
  }

  /** The number of matching records that were not yet resolved. */
  function NewlyResolved(rs: seq<ErrorLog>, kind: Option<string>, appName: Option<string>, severity: Option<string>): (n: nat)
    ensures n <= |rs|
    decreases |rs|
  {
    if rs == [] then 0
    else
      var e := rs[|rs| - 1];
      NewlyResolved(rs[..|rs| - 1], kind, appName, severity)
        + (if BulkMatches(e, kind, appName, severity) && !e.resolved.GetOr(false) then 1 else 0)
  }

  /** After a bulk resolve every matching record is resolved and every other
      record is exactly as before. */
  lemma ResolveMatchingSpec(rs: seq<ErrorLog>, kind: Option<string>, appName: Option<string>, severity: Option<string>, i: nat)
    requires i < |rs|
    ensures BulkMatches(rs[i], kind, appName, severity) ==>
              ResolveMatching(rs, kind, appName, severity)[i].resolved == Some(true)
              && ResolveMatching(rs, kind, appName, severity)[i] == rs[i].(resolved := Some(true))
    ensures !BulkMatches(rs[i], kind, appName, severity) ==> ResolveMatching(rs, kind, appName, severity)[i] == rs[i]
  {
  }

  /** A second bulk resolve with the same filters finds nothing to resolve. */
  lemma {:induction false} ResolveAgainFindsNothing(rs: seq<ErrorLog>, kind: Option<string>, appName: Option<string>, severity: Option<string>)
    ensures NewlyResolved(ResolveMatching(rs, kind, appName, severity), kind, appName, severity) == 0
    decreases |rs|
  {
    if rs != [] {
      var init := rs[..|rs| - 1];
      ResolveAgainFindsNothing(init, kind, appName, severity);
      assert ResolveMatching(rs, kind, appName, severity)[..|rs| - 1] == ResolveMatching(init, kind, appName, severity);
    }
  }

  // ---------------------------------------------------------------------
  // The store

  /** The records of the store file, as the router loads and saves them. */
  class ErrorLogStore {
    var records: seq<ErrorLog>

    /** A store without a file loads as the empty list. */
    constructor()
      ensures records == []
    {
      records := [];
    }

    /** `create_error_log`: the new record, unresolved, is appended and the
        list is cut back to its newest `MaxStored` records. */
    method CreateErrorLog(e: ErrorLogCreate, id: string, createdAt: string) returns (resp: ErrorLogResponse)
      modifies this
      ensures records == Capped(old(records) + [NewRecord(e, id, createdAt)])
      ensures |records| == Min(|old(records)| + 1, MaxStored)
      ensures records[|records| - 1] == NewRecord(e, id, createdAt)
      ensures resp == ErrorLogResponse(id, true, "Error logged successfully")
    {
      var all := records + [NewRecord(e, id, createdAt)];
      if |all| > MaxStored {
        all := all[|all| - MaxStored..];
      }
      records := all;
      resp := ErrorLogResponse(id, true, "Error logged successfully");
    }

    /** `get_errors`: filter, sort newest first, then cut the page. */
    method GetErrors(q: ErrorQuery, limit: nat, offset: nat) returns (page: seq<ErrorLog>)
      requires 1 <= limit <= 1000
      ensures page == Page(SortNewest(Filter(records, Matcher(q))), offset, limit)
      ensures |page| <= limit
      ensures NewestFirst(page)
      ensures forall i :: 0 <= i < |page| ==> Matches(page[i], q) && page[i] in records
    {
      var filtered: seq<ErrorLog> := [];
      for i := 0 to |records|
        invariant filtered == Filter(records[..i], Matcher(q))
      {
        assert records[..i + 1][..i] == records[..i];
        if Matches(records[i], q) {
          filtered := filtered + [records[i]];
        }
      }
      assert records[..|records|] == records;
      var sorted := SortNewest(filtered);
      page := Page(sorted, offset, limit);
      PageNewestFirst(sorted, offset, limit);
      forall i | 0 <= i < |page| ensures Matches(page[i], q) && page[i] in records {
        assert page[i] in multiset(sorted);
        assert page[i] in filtered;
      }
    }

    /** `get_error_stats`, with the five-minutes-ago threshold as a parameter. */
    method GetErrorStats(fiveMinutesAgo: int) returns (s: ErrorStats)
      ensures s.total == |records|
      ensures s.byType == Tally(records, TypeKey)
      ensures s.byApp == Tally(records, AppKey)
      ensures s.bySeverity == Tally(records, SeverityKey)
      ensures Total(s.byType) == s.total && Total(s.byApp) == s.total && Total(s.bySeverity) == s.total
      ensures s.resolved == ResolvedCount(records)
      ensures s.unresolved == s.total - s.resolved && s.unresolved >= 0
      ensures s.recent == RecentCount(records, fiveMinutesAgo)
    {
      var byType: Counts := [];
      var byApp: Counts := [];
      var bySeverity: Counts := [];
      var resolved := 0;
      var recent := 0;
      for i := 0 to |records|
        invariant byType == Tally(records[..i], TypeKey)
        invariant byApp == Tally(records[..i], AppKey)
        invariant bySeverity == Tally(records[..i], SeverityKey)
        invariant resolved == ResolvedCount(records[..i])
        invariant recent == RecentCount(records[..i], fiveMinutesAgo)
      {
        assert records[..i + 1][..i] == records[..i];
        var e := records[i];
        byType := Bump(byType, TypeKey(e));
        byApp := Bump(byApp, AppKey(e));
        bySeverity := Bump(bySeverity, SeverityKey(e));
        if e.resolved.GetOr(false) {
          resolved := resolved + 1;
        }
        if Stamp(e) >= fiveMinutesAgo {
          recent := recent + 1;
        }
      }
      assert records[..|records|] == records;
      TallySpec(records, TypeKey);
      TallySpec(records, AppKey);
      TallySpec(records, SeverityKey);
      s := ErrorStats(|records|, byType, byApp, bySeverity, recent, resolved, |records| - resolved);
    }

    /** Index of the first record with id `errorId`, as the router's loops find it. */
    method Find(errorId: string) returns (r: Option<nat>)
      ensures r.Some? ==> r.value < |records| && records[r.value].id == Some(errorId)
      ensures r.Some? ==> forall j :: 0 <= j < r.value ==> records[j].id != Some(errorId)
      ensures r.None? <==> forall j :: 0 <= j < |records| ==> records[j].id != Some(errorId)
    {
      for i := 0 to |records|
        invariant forall j :: 0 <= j < i ==> records[j].id != Some(errorId)
      {
        if records[i].id == Some(errorId) {
          return Some(i);
        }
      }
      return None;
    }

    /** `get_error`: the first record with the id, otherwise 404. */
    method GetError(errorId: string) returns (r: Result<ErrorLog, HttpError>)
      ensures r.Err? <==> forall j :: 0 <= j < |records| ==> records[j].id != Some(errorId)
      ensures r.Err? ==> r.error == NotFound("Error not found")
      ensures r.Ok? ==> exists i :: 0 <= i < |records| && records[i] == r.value
                          && r.value.id == Some(errorId)
                          && forall j :: 0 <= j < i ==> records[j].id != Some(errorId)
    {
      var found := Find(errorId);
      if found.None? {
        return Err(NotFound("Error not found"));
      }
      return Ok(records[found.value]);
    }

    /** `update_error`: only the supplied fields of the first record with
        the id change; every other record is untouched. */
    method UpdateError(errorId: string, u: ErrorLogUpdate) returns (r: Result<ErrorLog, HttpError>)
      modifies this
      ensures r.Err? <==> forall j :: 0 <= j < |old(records)| ==> old(records)[j].id != Some(errorId)
      ensures r.Err? ==> r.error == NotFound("Error not found") && records == old(records)
      ensures r.Ok? ==> exists i :: 0 <= i < |old(records)| && old(records)[i].id == Some(errorId)
                          && (forall j :: 0 <= j < i ==> old(records)[j].id != Some(errorId))
                          && records == old(records)[i := ApplyUpdate(old(records)[i], u)]
                          && r.value == records[i]
    {
      var found := Find(errorId);
      if found.None? {
        return Err(NotFound("Error not found"));
      }
      var i := found.value;
      records := records[i := ApplyUpdate(records[i], u)];
      return Ok(records[i]);
    }

    /** `delete_error`: removes exactly the first record with the id and keeps
        the order of the rest. */
    method DeleteError(errorId: string) returns (r: Result<string, HttpError>)
      modifies this
      ensures r.Err? <==> forall j :: 0 <= j < |old(records)| ==> old(records)[j].id != Some(errorId)
      ensures r.Err? ==> r.error == NotFound("Error not found") && records == old(records)
      ensures r.Ok? ==> exists i :: 0 <= i < |old(records)| && old(records)[i].id == Some(errorId)
                          && (forall j :: 0 <= j < i ==> old(records)[j].id != Some(errorId))
                          && records == old(records)[..i] + old(records)[i + 1..]
      ensures r.Ok? ==> r.value == "Error deleted successfully" && |records| == |old(records)| - 1
    {
      var found := Find(errorId);
      if found.None? {
        return Err(NotFound("Error not found"));
      }
      var i := found.value;
      records := records[..i] + records[i + 1..];
      return Ok("Error deleted successfully");
    }

    /** `clear_all_errors` */
    method ClearAllErrors() returns (message: string)
      modifies this
      ensures records == []
      ensures message == "All errors cleared successfully"
    {
      records := [];
      message := "All errors cleared successfully";
    }

    /** `bulk_resolve_errors`: resolves every matching record and reports how
        many of them were still unresolved. */
    method BulkResolveErrors(kind: Option<string>, appName: Option<string>, severity: Option<string>)
      returns (resolvedCount: nat, message: string)
      modifies this
      ensures records == ResolveMatching(old(records), kind, appName, severity)
      ensures resolvedCount == NewlyResolved(old(records), kind, appName, severity)
      ensures message == "Marked " + NatToString(resolvedCount) + " errors as resolved"
    {
      resolvedCount := 0;
      for i := 0 to |records|
        invariant |records| == |old(records)|
        invariant forall j :: 0 <= j < i ==> records[j] == ResolveOne(old(records)[j], kind, appName, severity)
        invariant forall j :: i <= j < |records| ==> records[j] == old(records)[j]
        invariant resolvedCount == NewlyResolved(old(records)[..i], kind, appName, severity)
      {
        assert old(records)[..i + 1][..i] == old(records)[..i];
        var e := records[i];
        if BulkMatches(e, kind, appName, severity) {
          if !e.resolved.GetOr(false) {
            records := records[i := e.(resolved := Some(true))];
            resolvedCount := resolvedCount + 1;
          }
        }
      }
      assert old(records)[..|old(records)|] == old(records);
      message := "Marked " + NatToString(resolvedCount) + " errors as resolved";
    }

    /** `export_errors_json`, with the export time as a parameter. */
    method ExportErrors(exportedAt: string) returns (at: string, totalErrors: nat, errors: seq<ErrorLog>)
      ensures at == exportedAt && errors == records && totalErrors == |records|
    {
      at := exportedAt;
      errors := records;
      totalErrors := |records|;
    }
  }
}
