/** The Python list and dict operations the backend routers are built from:
    slicing, `next(x for x in s if p(x))`, list comprehensions with a
    condition, and assigning a run of key/value pairs into a dict. */
module Collections {
  import opened Common

  function Min(a: int, b: int): int {
    if a <= b then a else b
  }

  /** Python's `s[offset:offset + limit]` for a non-negative offset and limit. */
  function Page<T>(s: seq<T>, offset: nat, limit: nat): (r: seq<T>)
    ensures |r| <= limit
    ensures offset >= |s| ==> r == []
    ensures offset < |s| ==> |r| == Min(limit, |s| - offset)
    ensures forall i :: 0 <= i < |r| ==> offset + i < |s| && r[i] == s[offset + i]
  {
    if offset >= |s| then [] else s[offset..Min(offset + limit, |s|)]
  }

  /** Every element of a page is an element of the list it was cut from. */
  lemma PageWithin<T>(s: seq<T>, offset: nat, limit: nat, x: T)
    requires x in Page(s, offset, limit)
    ensures x in s
  {
    var r := Page(s, offset, limit);
    var i :| 0 <= i < |r| && r[i] == x;
    assert s[offset + i] == x;
  }

  /** Index of the first element satisfying `p`, as `next(...)` finds it. */
  function FirstIndex<T>(s: seq<T>, p: T -> bool): (r: Option<nat>)
    ensures r.Some? ==> r.value < |s| && p(s[r.value])
    ensures r.Some? ==> forall j :: 0 <= j < r.value ==> !p(s[j])
    ensures r.None? <==> forall j :: 0 <= j < |s| ==> !p(s[j])
  {
    if s == [] then None
    else if p(s[0]) then Some(0)
    else match FirstIndex(s[1..], p)
      case None => None
      case Some(i) => Some(i + 1)
  }

  /** `[x for x in s if p(x)]` */
  function Filter<T>(s: seq<T>, p: T -> bool): (r: seq<T>)
    ensures |r| <= |s|
    ensures forall i :: 0 <= i < |r| ==> p(r[i])
    ensures forall i :: 0 <= i < |s| && p(s[i]) ==> s[i] in r
    ensures forall x :: x in r ==> x in s
    decreases |s|
  {
    if s == [] then []
    else
      var rest := Filter(s[..|s| - 1], p);
      assert s == s[..|s| - 1] + [s[|s| - 1]];
      if p(s[|s| - 1]) then rest + [s[|s| - 1]] else rest
  }

  /** Filtering keeps every occurrence of an element that passes and drops
      every occurrence of one that fails. */
  lemma {:induction false} FilterCounts<T>(s: seq<T>, p: T -> bool, x: T)
    ensures multiset(Filter(s, p))[x] == if p(x) then multiset(s)[x] else 0
    decreases |s|
  {
    if s != [] {
      var init, last := s[..|s| - 1], s[|s| - 1];
      FilterCounts(init, p, x);
      assert s == init + [last];
    }
  }

  /** Filtering keeps the relative order: it distributes over concatenation. */
  lemma {:induction false} FilterAppend<T>(a: seq<T>, b: seq<T>, p: T -> bool)
    ensures Filter(a + b, p) == Filter(a, p) + Filter(b, p)
    decreases |b|
  {
    if b == [] {
      assert a + b == a;
    } else {
      var b' := b[..|b| - 1];
      assert (a + b)[..|a + b| - 1] == a + b';
      FilterAppend(a, b', p);
    }
  }

  /** Two comprehensions in a row keep what passes both tests, in order. */
  lemma {:induction false} FilterFilter<T>(s: seq<T>, p: T -> bool, q: T -> bool, both: T -> bool)
    requires forall x :: both(x) == (p(x) && q(x))
    ensures Filter(Filter(s, p), q) == Filter(s, both)
    decreases |s|
  {
    if s != [] {
      var init, last := s[..|s| - 1], s[|s| - 1];
      FilterFilter(init, p, q, both);
      if p(last) {
        FilterAppend(Filter(init, p), [last], q);
      }
    }
  }

  /** Two tests that agree everywhere keep the same elements. */
  lemma {:induction false} FilterSame<T>(s: seq<T>, p: T -> bool, q: T -> bool)
    requires forall x :: p(x) == q(x)
    ensures Filter(s, p) == Filter(s, q)
    decreases |s|
  {
    if s != [] {
      FilterSame(s[..|s| - 1], p, q);
    }
  }

  /** A test every element passes keeps the whole list. */
  lemma {:induction false} FilterAll<T>(s: seq<T>, p: T -> bool)
    requires forall x :: p(x)
    ensures Filter(s, p) == s
    decreases |s|
  {
    if s != [] {
      FilterAll(s[..|s| - 1], p);
      assert s == s[..|s| - 1] + [s[|s| - 1]];
    }
  }

  /** A value stored in one of the routers' dict records. */
  datatype Value = Null | Bool(b: bool) | Int(i: int) | Real(r: real) | Str(s: string) | Time(t: int)

  type Dict = map<string, Value>

  /** `for key, value in items: d[key] = value` */
  function Assign(d: Dict, items: seq<(string, Value)>): (r: Dict)
    decreases |items|
  {
    if items == [] then d
    else
      var (k, v) := items[|items| - 1];
      Assign(d, items[..|items| - 1])[k := v]
  }

  function ItemKeys(items: seq<(string, Value)>): set<string> {
    set i | 0 <= i < |items| :: items[i].0
  }

  /** The value of the last pair for key `k`, which is the one that wins. */
  function LastValue(items: seq<(string, Value)>, k: string): Value
    requires k in ItemKeys(items)
    decreases |items|
  {
    if items[|items| - 1].0 == k then items[|items| - 1].1
    else
      assert k in ItemKeys(items[..|items| - 1]) by {
        var i :| 0 <= i < |items| && items[i].0 == k;
        assert items[..|items| - 1][i] == items[i];
      }
      LastValue(items[..|items| - 1], k)
  }

  /** Assigning a run of pairs sets exactly the keys it names, each to its
      last value, and leaves every other key of the dict as it was. */
  lemma {:induction false} AssignSpec(d: Dict, items: seq<(string, Value)>)
    ensures Assign(d, items).Keys == d.Keys + ItemKeys(items)
    ensures forall k :: k in ItemKeys(items) ==> Assign(d, items)[k] == LastValue(items, k)
    ensures forall k :: k in d && k !in ItemKeys(items) ==> Assign(d, items)[k] == d[k]
    decreases |items|
  {
    if items != [] {
      var init := items[..|items| - 1];
      AssignSpec(d, init);
      assert ItemKeys(items) == ItemKeys(init) + {items[|items| - 1].0} by {
        forall k | k in ItemKeys(items) ensures k in ItemKeys(init) + {items[|items| - 1].0} {
          var i :| 0 <= i < |items| && items[i].0 == k;
          if i < |items| - 1 { assert init[i] == items[i]; }
        }
        forall k | k in ItemKeys(init) ensures k in ItemKeys(items) {
          var i :| 0 <= i < |init| && init[i].0 == k;
          assert items[i] == init[i];
        }
      }
    }
  }

  /** A key the pairs do not name keeps its value. */
  lemma AssignKeeps(d: Dict, items: seq<(string, Value)>, k: string)
    requires k in d && k !in ItemKeys(items)
    ensures k in Assign(d, items) && Assign(d, items)[k] == d[k]
  {
    AssignSpec(d, items);
  }
}
