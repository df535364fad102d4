/**
 * The prices table of main.py and the operations its handlers and the scraper
 * perform on it. The table is a sequence of rows kept in ascending id order,
 * which is the order in which SQLite scans a table keyed by an integer primary key.
 */
module Store {
  import opened Wrappers

  /** One row of the table `prices`. */
  datatype Record = Record(id: int, name: string, cost: int)

  /** The fields present in an update request; an absent field keeps its stored value. */
  datatype Patch = Patch(id: Option<int>, name: Option<string>, cost: Option<int>)

  datatype StoreError =
    | NotFound     // no row has the requested id; the handlers answer 404
    | DuplicateId  // the commit is rejected because another row has that primary key

  // ---------------------------------------------------------------------------
  // Table invariants and queries

  predicate IdsAscending(t: seq<Record>) {
    forall i, j :: 0 <= i < j < |t| ==> t[i].id < t[j].id
  }

  predicate HasId(t: seq<Record>, id: int) {
    exists i :: 0 <= i < |t| && t[i].id == id
  }

  /** The invariant the scraper's lookup-before-insert aims at: no two rows share a name. */
  predicate UniqueNames(t: seq<Record>) {
    forall i, j :: 0 <= i < j < |t| ==> t[i].name != t[j].name
  }

  function Names(t: seq<Record>): set<string> {
    set r | r in t :: r.name
  }

  /** In an id-ascending table a row is identified by its id. */
  lemma IdIdentifiesRow(t: seq<Record>, x: Record, y: Record)
    requires IdsAscending(t) && x in t && y in t && x.id == y.id
    ensures x == y
  {
    var i :| 0 <= i < |t| && t[i] == x;
    var j :| 0 <= j < |t| && t[j] == y;
    assert i == j;
  }

  /**
   * Two id-ascending tables holding the same rows are the same table: the row
   * order is fixed by the contents, so the model may compare tables by their rows.
   */
  lemma {:induction false} AscendingDeterminedByRows(a: seq<Record>, b: seq<Record>)
    requires IdsAscending(a) && IdsAscending(b)
    requires forall y :: y in a <==> y in b
    ensures a == b
  {
    if a == [] {
      FirstRowIn(b);
    } else {
      assert a[0] in a && b != [] && b[0] in b;
      HeadHasLeastId(a, b[0]);
      HeadHasLeastId(b, a[0]);
      IdIdentifiesRow(a, a[0], b[0]);
      TailRows(a);
      TailRows(b);
      AscendingDeterminedByRows(a[1..], b[1..]);
      assert a == [a[0]] + a[1..] && b == [b[0]] + b[1..];
    }
  }

  lemma FirstRowIn(t: seq<Record>)
    ensures t != [] ==> t[0] in t
  {
  }

  lemma HeadHasLeastId(t: seq<Record>, y: Record)
    requires IdsAscending(t) && y in t
    ensures t[0].id <= y.id
  {
  }

  /** Past its first row, an id-ascending table holds exactly its other rows. */
  lemma TailRows(t: seq<Record>)
    requires IdsAscending(t) && t != []
    ensures IdsAscending(t[1..])
    ensures forall y :: y in t[1..] <==> y in t && y != t[0]
  {
    forall y | y in t && y != t[0] ensures y in t[1..] {
      var j :| 0 <= j < |t| && t[j] == y;
      assert t[1..][j - 1] == y;
    }
    forall y | y in t[1..] ensures y != t[0] {
      var j :| 0 <= j < |t[1..]| && t[1..][j] == y;
      assert t[j + 1] == y;
    }
  }

  /**
   * The id SQLite gives a row inserted without one: one more than the largest id
   * in the table, or 1 when the table is empty.
   */
  function NextId(t: seq<Record>): (id: int)
    requires IdsAscending(t)
    ensures forall i :: 0 <= i < |t| ==> t[i].id < id
    ensures t == [] ==> id == 1
    ensures t != [] ==> HasId(t, id - 1)
  {
    if t == [] then 1 else t[|t| - 1].id + 1
  }

  /** `select(Prices).where(Prices.name == title).first()`: the first row, in table order, with that name. */
  function FindByName(t: seq<Record>, name: string): (r: Option<Record>)
    ensures r.None? <==> name !in Names(t)
    ensures r.Some? ==> exists i :: 0 <= i < |t| && t[i] == r.value && r.value.name == name
                                    && forall j :: 0 <= j < i ==> t[j].name != name
  {
    if t == [] then None
    else if t[0].name == name then Some(t[0])
    else
      var r := FindByName(t[1..], name);
      assert Names(t) == {t[0].name} + Names(t[1..]) by {
        assert forall x :: x in t <==> x == t[0] || x in t[1..];
      }
      if r.Some? then
        assert exists i :: 0 <= i < |t| && t[i] == r.value && r.value.name == name
                           && forall j :: 0 <= j < i ==> t[j].name != name by {
          var i :| 0 <= i < |t[1..]| && t[1..][i] == r.value && r.value.name == name
                   && forall j :: 0 <= j < i ==> t[1..][j].name != name;
          assert t[i + 1] == r.value;
          forall j | 0 <= j < i + 1 ensures t[j].name != name {
            if j > 0 { assert t[j] == t[1..][j - 1]; }
          }
        }
        r
      else r
  }

  /** `session.get(Prices, id)`: the position of the row with that id, if there is one. */
  function IndexOf(t: seq<Record>, id: int): (r: Option<nat>)
    ensures r.None? <==> !HasId(t, id)
    ensures r.Some? ==> r.value < |t| && t[r.value].id == id
  {
    if t == [] then None
    else if t[0].id == id then Some(0)
    else
      var r := IndexOf(t[1..], id);
      assert HasId(t, id) <==> HasId(t[1..], id) by {
        if HasId(t, id) {
          var i :| 0 <= i < |t| && t[i].id == id;
          assert t[1..][i - 1] == t[i];
        }
        if HasId(t[1..], id) {
          var i :| 0 <= i < |t[1..]| && t[1..][i].id == id;
          assert t[i + 1] == t[1..][i];
        }
      }
      if r.None? then None else Some(r.value + 1)
  }

  // ---------------------------------------------------------------------------
  // Read handlers

  const DefaultOffset := 0
  const DefaultLimit := 100

  /**
   * `select(Prices).offset(offset).limit(limit)` as SQLite evaluates it: a
   * negative offset counts as 0 and a negative limit means no limit.
   */
  function Page(t: seq<Record>, offset: int, limit: int): (r: seq<Record>)
    ensures var start := if offset <= 0 then 0 else if offset < |t| then offset else |t|;
      && |r| == (if 0 <= limit < |t| - start then limit else |t| - start)
      && forall k :: 0 <= k < |r| ==> r[k] == t[start + k]
  {
    var start := if offset <= 0 then 0 else if offset < |t| then offset else |t|;
    var end := if 0 <= limit < |t| - start then start + limit else |t|;
    t[start..end]
  }

  /** `read_prices` called without query parameters: the first hundred rows, or all of them when there are fewer. */
  function DefaultPage(t: seq<Record>): (r: seq<Record>)
    ensures |r| == (if |t| < DefaultLimit then |t| else DefaultLimit)
    ensures r == t[..|r|]
  {
    Page(t, DefaultOffset, DefaultLimit)
  }

  /** Consecutive pages join up: the page after `(offset, k)` continues where it stopped. */
  lemma PagesJoin(t: seq<Record>, offset: nat, k: nat, m: nat)
    ensures Page(t, offset, k) + Page(t, offset + k, m) == Page(t, offset, k + m)
  {
  }

  /**
   * Pages that do not overlap in position share no id, so paging through an
   * unchanged table with `(0, k)` and then `(k, k)` never shows a row twice.
   */
  lemma PagesDisjoint(t: seq<Record>, o1: nat, l1: nat, o2: nat, l2: int)
    requires IdsAscending(t)
    requires o1 + l1 <= o2
    ensures forall x, y :: x in Page(t, o1, l1) && y in Page(t, o2, l2) ==> x.id != y.id
  {
    var p, q := Page(t, o1, l1), Page(t, o2, l2);
    forall x, y | x in p && y in q ensures x.id != y.id {
      var i :| 0 <= i < |p| && p[i] == x;
      var j :| 0 <= j < |q| && q[j] == y;
      PageRow(t, o1, l1, i);
      PageRow(t, o2, l2, j);
      assert t[o1 + i].id < t[o2 + j].id;
    }
  }

  lemma PageRow(t: seq<Record>, offset: nat, limit: int, k: nat)
    requires k < |Page(t, offset, limit)|
    ensures offset + k < |t| && Page(t, offset, limit)[k] == t[offset + k]
    ensures 0 <= limit ==> k < limit
  {
  }

  /** `session.get(Prices, id)` in the read handler: the row with that id, or 404. */
  function Get(t: seq<Record>, id: int): (r: Result<Record, StoreError>)
    ensures r.Ok? <==> HasId(t, id)
    ensures r.Ok? ==> r.value in t && r.value.id == id
    ensures r.Err? ==> r.error == NotFound
  {
    match IndexOf(t, id)
    case Some(i) => Ok(t[i])
    case None => Err(NotFound)
  }

  // ---------------------------------------------------------------------------
  // Writes

  /**
   * The scraper's upsert-if-absent: insert `(title, price)` under a fresh id when
   * no row is named `title`, and otherwise leave the table as it is.
   */
  function AddIfAbsent(t: seq<Record>, title: string, price: int): (r: seq<Record>)
    requires IdsAscending(t)
    ensures IdsAscending(r)
    ensures title in Names(r) && Names(r) == Names(t) + {title}
    ensures title in Names(t) ==> r == t
    ensures title !in Names(t) ==> |r| == |t| + 1 && t < r && !HasId(t, r[|t|].id)
                                    && r[|t|].name == title && r[|t|].cost == price
  {
    match FindByName(t, title)
    case Some(_) => t
    case None =>
      var r := t + [Record(NextId(t), title, price)];
      assert forall x :: x in r <==> x in t || x == r[|t|];
      r
  }

  /** The scraper never creates a second row with a name it has already stored. */
  lemma AddIfAbsentKeepsNamesUnique(t: seq<Record>, title: string, price: int)
    requires IdsAscending(t) && UniqueNames(t)
    ensures UniqueNames(AddIfAbsent(t, title, price))
  {
    var r := AddIfAbsent(t, title, price);
    if title !in Names(t) {
      forall i | 0 <= i < |t| ensures r[i].name != title {
        assert t[i] in t;
      }
    }
  }

  /** Adding the same title twice leaves the table as adding it once, whatever the second price. */
  lemma AddIfAbsentIdempotent(t: seq<Record>, title: string, price: int, price': int)
    requires IdsAscending(t)
    ensures AddIfAbsent(AddIfAbsent(t, title, price), title, price') == AddIfAbsent(t, title, price)
  {
  }

  /** Insert a row into an id-ascending table at the place its id gives it. */
  function InsertSorted(t: seq<Record>, x: Record): (r: seq<Record>)
    requires IdsAscending(t) && !HasId(t, x.id)
    ensures IdsAscending(r) && |r| == |t| + 1
    ensures forall y :: y in r <==> y in t || y == x
  {
    if t == [] then [x]
    else if x.id < t[0].id then [x] + t
    else
      assert !HasId(t[1..], x.id) by {
        forall k | 0 <= k < |t[1..]| ensures t[1..][k].id != x.id {
          assert t[1..][k] == t[k + 1];
        }
      }
      var rest := InsertSorted(t[1..], x);
      assert forall y :: y in t <==> y == t[0] || y in t[1..];
      assert forall k :: 0 <= k < |rest| ==> t[0].id < rest[k].id by {
        forall k | 0 <= k < |rest| ensures t[0].id < rest[k].id {
          assert rest[k] in rest;
        }
      }
      [t[0]] + rest
  }

  /** The table without the row at position `i`. */
  function RemoveAt(t: seq<Record>, i: nat): (r: seq<Record>)
    requires IdsAscending(t) && i < |t|
    ensures IdsAscending(r) && |r| == |t| - 1
    ensures forall y :: y in r <==> y in t && y.id != t[i].id
  {
    SplicedAscending(t, i);
    SplicedRows(t, i);
    Spliced(t, i)
  }

  /** `t` with position `i` cut out. */
  function Spliced(t: seq<Record>, i: nat): (r: seq<Record>)
    requires i < |t|
    ensures |r| == |t| - 1
    ensures forall k :: 0 <= k < |r| ==> r[k] == if k < i then t[k] else t[k + 1]
  {
    seq(|t| - 1, k requires 0 <= k < |t| - 1 => if k < i then t[k] else t[k + 1])
  }

  lemma SplicedAscending(t: seq<Record>, i: nat)
    requires IdsAscending(t) && i < |t|
    ensures IdsAscending(Spliced(t, i))
  {
    var r := Spliced(t, i);
    forall a, b | 0 <= a < b < |r| ensures r[a].id < r[b].id {
      var a', b' := if a < i then a else a + 1, if b < i then b else b + 1;
      assert r[a] == t[a'] && r[b] == t[b'] && a' < b';
    }
  }

  lemma SplicedRows(t: seq<Record>, i: nat)
    requires IdsAscending(t) && i < |t|
    ensures forall y :: y in Spliced(t, i) <==> y in t && y.id != t[i].id
  {
    SplicedRowsKept(t, i);
    SplicedRowsAll(t, i);
  }

  lemma SplicedRowsKept(t: seq<Record>, i: nat)
    requires IdsAscending(t) && i < |t|
    ensures forall y :: y in Spliced(t, i) ==> y in t && y.id != t[i].id
  {
    var r := Spliced(t, i);
    forall y | y in r ensures y in t && y.id != t[i].id {
      var k :| 0 <= k < |r| && r[k] == y;
      var k' := if k < i then k else k + 1;
      assert y == t[k'] && k' != i;
    }
  }

  lemma SplicedRowsAll(t: seq<Record>, i: nat)
    requires i < |t|
    ensures forall y :: y in t && y.id != t[i].id ==> y in Spliced(t, i)
  {
    var r := Spliced(t, i);
    forall y | y in t && y.id != t[i].id ensures y in r {
      var j :| 0 <= j < |t| && t[j] == y;
      var j' := if j < i then j else j - 1;
      assert r[j'] == y;
    }
  }

  /**
   * `price_db.sqlmodel_update(data.model_dump(exclude_unset=True))`: every field
   * present in the patch overwrites the stored one, every absent field is kept.
   */
  function Apply(r: Record, p: Patch): (u: Record)
    ensures u.id == (if p.id.Some? then p.id.value else r.id)
    ensures u.name == (if p.name.Some? then p.name.value else r.name)
    ensures u.cost == (if p.cost.Some? then p.cost.value else r.cost)
  {
    Record(p.id.GetOr(r.id), p.name.GetOr(r.name), p.cost.GetOr(r.cost))
  }

  /** Applying a patch a second time changes nothing. */
  lemma ApplyIdempotent(r: Record, p: Patch)
    ensures Apply(Apply(r, p), p) == Apply(r, p)
  {
  }

  /** A patch leaves a row as it is exactly when every field it carries already has that value. */
  lemma ApplyUnchanged(r: Record, p: Patch)
    ensures Apply(r, p) == r <==>
      (p.id.Some? ==> p.id.value == r.id) && (p.name.Some? ==> p.name.value == r.name)
      && (p.cost.Some? ==> p.cost.value == r.cost)
  {
  }

  /** No row of `RemoveAt(t, i)` has the id of the removed row. */
  lemma RemovedIdAbsent(t: seq<Record>, i: nat)
    requires IdsAscending(t) && i < |t|
    ensures !HasId(RemoveAt(t, i), t[i].id)
  {
    var rest := RemoveAt(t, i);
    forall k | 0 <= k < |rest| ensures rest[k].id != t[i].id {
      assert rest[k] in rest;
    }
  }

  /** An update that keeps the id keeps the row where it was and touches no other row. */
  lemma UpdateInPlace(t: seq<Record>, i: nat, u: Record)
    requires IdsAscending(t) && i < |t| && u.id == t[i].id
    ensures !HasId(RemoveAt(t, i), u.id)
    ensures InsertSorted(RemoveAt(t, i), u) == t[i := u]
  {
    RemovedIdAbsent(t, i);
    var a := InsertSorted(RemoveAt(t, i), u);
    var b := ReplacedRows(t, i, u);
    forall y ensures y in a <==> y in b {
      assert y in a <==> (y in t && y.id != t[i].id) || y == u;
    }
    AscendingDeterminedByRows(a, b);
  }

  /** Replacing the row at `i` by one with the same id keeps the order and swaps just that row. */
  function ReplacedRows(t: seq<Record>, i: nat, u: Record): (b: seq<Record>)
    requires IdsAscending(t) && i < |t| && u.id == t[i].id
    ensures b == t[i := u] && IdsAscending(b)
    ensures forall y :: y in b <==> (y in t && y.id != t[i].id) || y == u
  {
    var b := t[i := u];
    assert b[i] == u;
    forall y | y in t && y.id != t[i].id ensures y in b {
      var j :| 0 <= j < |t| && t[j] == y;
      assert j != i;
      assert b[j] == y;
    }
    forall y | y in b ensures (y in t && y.id != t[i].id) || y == u {
      var j :| 0 <= j < |b| && b[j] == y;
      if j != i {
        assert t[j] == y && t[j] in t;
        assert t[j].id != t[i].id;
      }
    }
    b
  }

  /**
   * Create, then read back: once a row is in an id-ascending table, reading its
   * id returns that row with the same fields. This covers a created row and an
   * updated one alike.
   */
  lemma GetReturnsStoredRow(u: seq<Record>, x: Record)
    requires IdsAscending(u) && x in u
    ensures Get(u, x.id) == Ok(x)
  {
    IdIdentifiesRow(u, x, Get(u, x.id).value);
  }

  /** Delete, then read back: once no row carries `id`, reading it answers 404. */
  lemma GetAfterDelete(t: seq<Record>, u: seq<Record>, id: int)
    requires forall y :: y in u <==> y in t && y.id != id
    ensures Get(u, id) == Err(NotFound)
  {
    forall k | 0 <= k < |u| ensures u[k].id != id {
      assert u[k] in u;
    }
  }

  /**
   * `create_item` does not look at names: creating a row under a name the table
   * already holds, with a free id of its own or with the next one, leaves two
   * rows with that name.
   */
  lemma CreateAllowsDuplicateName(t: seq<Record>, u: seq<Record>, id: int, name: string, cost: int)
    requires IdsAscending(t) && !HasId(t, id) && name in Names(t)
    requires forall y :: y in u <==> y in t || y == Record(id, name, cost)
    ensures !UniqueNames(u)
  {
    var x :| x in t && x.name == name;
    var created := Record(id, name, cost);
    assert x in u && created in u;
    var i :| 0 <= i < |u| && u[i] == x;
    var j :| 0 <= j < |u| && u[j] == created;
    var k :| 0 <= k < |t| && t[k] == x;
    assert x.id != created.id;
    assert i != j && u[i].name == u[j].name;
    if j < i {
      assert u[j].name == u[i].name;
    }
  }

  // ---------------------------------------------------------------------------
  // The table as the handlers and the scraper share it

  class Catalog {
    var records: seq<Record>

    ghost predicate Valid()
      reads this
    {
      IdsAscending(records)
    }

    /** Open a table that already holds `initial` (empty on first start). */
    constructor (initial: seq<Record>)
      requires IdsAscending(initial)
      ensures Valid() && records == initial
    {
      records := initial;
    }

    /** `add_item`: look the title up and insert it only when no row has that name. */
    method AddItem(title: string, price: int)
      requires Valid()
      modifies this
      ensures Valid()
      ensures records == AddIfAbsent(old(records), title, price)
    {
      var existing := FindByName(records, title);
      if existing.None? {
        var row := Record(NextId(records), title, price);
        records := records + [row];
      }
    }

    /**
     * `create_item`: insert the request's row without looking at its name. A row
     * sent without an id gets the next free one; an id already in use makes the
     * commit fail.
     */
    method Create(id: Option<int>, name: string, cost: int) returns (res: Result<Record, StoreError>)
      requires Valid()
      modifies this
      ensures Valid()
      ensures id.Some? && HasId(old(records), id.value) ==>
                res == Err(DuplicateId) && records == old(records)
      ensures !(id.Some? && HasId(old(records), id.value)) ==>
                && res == Ok(Record(id.GetOr(NextId(old(records))), name, cost))
                && |records| == |old(records)| + 1
                && forall y :: y in records <==> y in old(records) || y == res.value
    {
      var row := Record(id.GetOr(NextId(records)), name, cost);
      if HasId(records, row.id) {
        return Err(DuplicateId);
      }
      records := InsertSorted(records, row);
      res := Ok(row);
    }

    /**
     * `update_item`: 404 when no row has `id`; otherwise the fields present in the
     * patch overwrite the stored ones. Moving the row onto an id another row
     * holds makes the commit fail.
     */
    method Update(id: int, patch: Patch) returns (res: Result<Record, StoreError>)
      requires Valid()
      modifies this
      ensures Valid()
      ensures !HasId(old(records), id) ==> res == Err(NotFound) && records == old(records)
      ensures HasId(old(records), id) ==>
                var cur := Get(old(records), id).value;
                var upd := Apply(cur, patch);
                if upd.id != id && HasId(old(records), upd.id) then
                  res == Err(DuplicateId) && records == old(records)
                else
                  && res == Ok(upd)
                  && |records| == |old(records)|
                  && forall y :: y in records <==> (y in old(records) && y.id != id) || y == upd
    {
      var index := IndexOf(records, id);
      if index.None? {
        return Err(NotFound);
      }
      var i := index.value;
      var upd := Apply(records[i], patch);
      if upd.id != id && HasId(records, upd.id) {
        return Err(DuplicateId);
      }
      var rest := RemoveAt(records, i);
      assert !HasId(rest, upd.id) by {
        forall k | 0 <= k < |rest| ensures rest[k].id != upd.id {
          assert rest[k] in rest;
          if upd.id != id {
            assert rest[k] in records;
          }
        }
      }
      IdIdentifiesRow(records, records[i], Get(records, id).value);
      records := InsertSorted(rest, upd);
      res := Ok(upd);
    }

    /** `delete_item`: 404 when no row has `id`; otherwise that row, and only it, is removed. */
    method Delete(id: int) returns (res: Result<bool, StoreError>)
      requires Valid()
      modifies this
      ensures Valid()
      ensures !HasId(old(records), id) ==> res == Err(NotFound) && records == old(records)
      ensures HasId(old(records), id) ==>
                && res == Ok(true)
                && |records| == |old(records)| - 1
                && forall y :: y in records <==> y in old(records) && y.id != id
    {
      var index := IndexOf(records, id);
      if index.None? {
        return Err(NotFound);
      }
      records := RemoveAt(records, index.value);
      res := Ok(true);
    }
  }
}
