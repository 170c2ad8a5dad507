/** The in-memory tables of the mock data service, `data_rows_db` and
    `users_db`: lists of dict rows keyed by an integer `"id"`, with the same
    get, create, update and delete operations in both routers. */
module Tables {
  import opened Common
  import opened Collections

  /** A row carries an integer id under the key `"id"`. */
  predicate HasIntId(d: Dict) {
    "id" in d && d["id"].Int?
  }

  predicate RowIdIs(d: Dict, id: int) {
    "id" in d && d["id"] == Int(id)
  }

  function IdIs(id: int): Dict -> bool {
    d => RowIdIs(d, id)
  }

  function IdIsNot(id: int): Dict -> bool {
    d => !RowIdIs(d, id)
  }

  /** The id of a row; every row of a valid table has one. */
  function IdOf(d: Dict): int {
    if HasIntId(d) then d["id"].i else 0
  }

  /** `max([d["id"] for d in rows], default=0)` */
  function MaxId(rows: seq<Dict>): (m: int)
    ensures rows == [] ==> m == 0
    ensures forall i :: 0 <= i < |rows| ==> IdOf(rows[i]) <= m
    ensures rows != [] ==> exists i :: 0 <= i < |rows| && IdOf(rows[i]) == m
    decreases |rows|
  {
    if rows == [] then 0
    else if |rows| == 1 then IdOf(rows[0])
    else
      var m := MaxId(rows[..|rows| - 1]);
      var last := IdOf(rows[|rows| - 1]);
      if last > m then last else m
  }

  /** The id `create` assigns: one more than the largest id, 1 in an empty table. */
  function NextId(rows: seq<Dict>): (n: int)
    ensures forall i :: 0 <= i < |rows| ==> IdOf(rows[i]) < n
    ensures rows == [] ==> n == 1
    ensures rows != [] ==> exists i :: 0 <= i < |rows| && IdOf(rows[i]) == n - 1
  {
    MaxId(rows) + 1
  }

  /** The row `create` builds: the new id, then the request fields, then
      both timestamps set to the same clock reading. */
  function NewRow(id: int, fields: Dict, now: int): (r: Dict)
    requires "id" !in fields
    ensures RowIdIs(r, id)
    ensures r.Keys == fields.Keys + {"id", "created_at", "updated_at"}
    ensures r["created_at"] == Time(now) && r["updated_at"] == Time(now)
    ensures forall k :: k in fields && k != "created_at" && k != "updated_at" ==> r[k] == fields[k]
  {
    (map["id" := Int(id)] + fields)["created_at" := Time(now)]["updated_at" := Time(now)]
  }

  /** A table of dict rows. `missing` is the detail of its 404 responses. */
  class Table {
    var rows: seq<Dict>
    const missing: string

    predicate Valid()
      reads this
    {
      forall i :: 0 <= i < |rows| ==> HasIntId(rows[i])
    }

    constructor(missing: string, rows: seq<Dict>)
      requires forall i :: 0 <= i < |rows| ==> HasIntId(rows[i])
      ensures Valid() && this.rows == rows && this.missing == missing
    {
      this.rows := rows;
      this.missing := missing;
    }

    /** `get_users`: the whole table as it stands. */
    function All(): (r: seq<Dict>)
      reads this
      ensures r == rows
    {
      rows
    }

    /** `next((d for d in rows if d["id"] == id), None)`, failing with 404. */
    function Get(id: int): (r: Result<Dict, HttpError>)
      reads this
      ensures r.Err? <==> forall j :: 0 <= j < |rows| ==> !RowIdIs(rows[j], id)
      ensures r.Err? ==> r.error == NotFound(missing)
      ensures r.Ok? ==> exists i :: 0 <= i < |rows| && rows[i] == r.value && RowIdIs(r.value, id)
                          && forall j :: 0 <= j < i ==> !RowIdIs(rows[j], id)
    {
      match FirstIndex(rows, IdIs(id))
      case None => Err(NotFound(missing))
      case Some(i) => Ok(rows[i])
    }

    /** `create`: appends a row under a fresh id larger than every existing one. */
    method Create(fields: Dict, now: int) returns (row: Dict)
      requires Valid() && "id" !in fields
      modifies this
      ensures Valid()
      ensures row == NewRow(NextId(old(rows)), fields, now)
      ensures rows == old(rows) + [row]
      ensures forall i :: 0 <= i < |old(rows)| ==> IdOf(old(rows)[i]) < IdOf(row)
    {
      row := NewRow(NextId(rows), fields, now);
      rows := rows + [row];
    }

    /** `update`: assigns the supplied pairs into the first row with the id,
        then stamps its `updated_at`; every other row is untouched. */
    method Update(id: int, items: seq<(string, Value)>, now: int) returns (r: Result<Dict, HttpError>)
      requires Valid() && "id" !in ItemKeys(items)
      modifies this
      ensures Valid()
      ensures r.Err? <==> forall j :: 0 <= j < |old(rows)| ==> !RowIdIs(old(rows)[j], id)
      ensures r.Err? ==> r.error == NotFound(missing) && rows == old(rows)
      ensures r.Ok? ==> exists i :: 0 <= i < |old(rows)| && RowIdIs(old(rows)[i], id)
                          && (forall j :: 0 <= j < i ==> !RowIdIs(old(rows)[j], id))
                          && r.value == Assign(old(rows)[i], items)["updated_at" := Time(now)]
                          && rows == old(rows)[i := r.value]
    {
      var found := FirstIndex(rows, IdIs(id));
      if found.None? {
        return Err(NotFound(missing));
      }
      var i := found.value;
      var row := rows[i];
      for j := 0 to |items|
        invariant row == Assign(rows[i], items[..j])
      {
        assert items[..j + 1][..j] == items[..j];
        row := row[items[j].0 := items[j].1];
      }
      assert items[..|items|] == items;
      row := row["updated_at" := Time(now)];
      AssignKeeps(rows[i], items, "id");
      rows := rows[i := row];
      return Ok(row);
    }

    /** `delete`: 404 when no row has the id; otherwise every row with the id
        is dropped and the rest keep their order. */
    method Delete(id: int) returns (r: Result<(), HttpError>)
      requires Valid()
      modifies this
      ensures Valid()
      ensures r.Err? <==> forall j :: 0 <= j < |old(rows)| ==> !RowIdIs(old(rows)[j], id)
      ensures r.Err? ==> r.error == NotFound(missing) && rows == old(rows)
      ensures r.Ok? ==> rows == Filter(old(rows), IdIsNot(id))
      ensures forall i :: 0 <= i < |rows| ==> !RowIdIs(rows[i], id)
    {
      if FirstIndex(rows, IdIs(id)).None? {
        return Err(NotFound(missing));
      }
      var kept := Filter(rows, IdIsNot(id));
      forall i | 0 <= i < |kept| ensures HasIntId(kept[i]) {
        assert kept[i] in rows;
      }
      rows := kept;
      return Ok(());
    }
  }

  /** `get_data_rows`: the rows of the category and status asked for, when
      those are given, then the page `[skip, skip + limit)`. */
  function ListRows(rows: seq<Dict>, category: Option<string>, status: Option<string>, skip: nat, limit: nat): (r: seq<Dict>)
    requires 1 <= limit <= 1000
    ensures |r| <= limit
    ensures r == Page(Filter(rows, Wanted(category, status)), skip, limit)
    ensures forall i :: 0 <= i < |r| ==> r[i] in rows
    ensures forall i :: 0 <= i < |r| ==> (category.Some? && category.value != "" ==> FieldIs(r[i], "category", category.value))
    ensures forall i :: 0 <= i < |r| ==> (status.Some? && status.value != "" ==> FieldIs(r[i], "status", status.value))
  {
    var byCategory := if Given(category) then Filter(rows, FieldMatcher("category", category.value)) else rows;
    var byStatus := if Given(status) then Filter(byCategory, FieldMatcher("status", status.value)) else byCategory;
    WantedFilters(rows, category, status);
    var r := Page(byStatus, skip, limit);
    forall i | 0 <= i < |r|
      ensures r[i] in byStatus && r[i] in rows && Wanted(category, status)(r[i])
    {
      PageWithin(byStatus, skip, limit, r[i]);
    }
    r
  }

  /** A query parameter takes effect only when it is truthy: present and non-empty. */
  predicate Given(q: Option<string>) {
    q.Some? && q.value != ""
  }

  /** The single test the two successive comprehensions amount to. */
  function Wanted(category: Option<string>, status: Option<string>): Dict -> bool {
    d => (Given(category) ==> FieldIs(d, "category", category.value))
      && (Given(status) ==> FieldIs(d, "status", status.value))
  }

  /** Filtering by category and then by status, each only when given, keeps
      exactly the rows that pass the combined test, in their order. */
  lemma WantedFilters(rows: seq<Dict>, category: Option<string>, status: Option<string>)
    ensures (var byCategory := if Given(category) then Filter(rows, FieldMatcher("category", category.value)) else rows;
             var byStatus := if Given(status) then Filter(byCategory, FieldMatcher("status", status.value)) else byCategory;
             byStatus == Filter(rows, Wanted(category, status)))
  {
    var w := Wanted(category, status);
    if Given(category) && Given(status) {
      FilterFilter(rows, FieldMatcher("category", category.value), FieldMatcher("status", status.value), w);
    } else if Given(category) {
      FilterSame(rows, FieldMatcher("category", category.value), w);
    } else if Given(status) {
      FilterSame(rows, FieldMatcher("status", status.value), w);
    } else {
      FilterAll(rows, w);
    }
  }

  predicate FieldIs(d: Dict, key: string, v: string) {
    key in d && d[key] == Str(v)
  }

  function FieldMatcher(key: string, v: string): Dict -> bool {
    d => FieldIs(d, key, v)
  }
}
