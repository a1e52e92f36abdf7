/**
 * The activation store: one row per site a license key has been activated
 * on. The column set, defaults and creation schema are the table
 * descriptor's constants; the store itself is an in-memory sequence of rows
 * with the descriptor's primary key and unique key enforced on insert.
 */
module ActivationsTable {
  import opened Common

  const StatusActive := "active"

  /** The sprintf field type the descriptor gives each column. */
  datatype Format = IntField | StringField

  /** A default value, as the descriptor writes it. */
  datatype Cell = IntCell(i: int) | StringCell(s: string)

  /** Column types of the creation SQL. */
  datatype SqlType = BigIntUnsigned | BigInt | VarChar(width: nat) | DateTime

  datatype ColumnDef = ColumnDef(name: string, sqlType: SqlType, notNull: bool, autoIncrement: bool)

  function ColumnFormats(): map<string, Format> {
    map[
      "id" := IntField, "lkey" := StringField, "location" := StringField, "status" := StringField,
      "activation" := StringField, "deactivation" := StringField, "release_id" := IntField
    ]
  }

  function ColumnDefaults(): map<string, Cell> {
    map[
      "id" := IntCell(0), "lkey" := StringCell(""), "location" := StringCell(""),
      "status" := StringCell(StatusActive), "activation" := StringCell(""),
      "deactivation" := StringCell(""), "release_id" := StringCell("")
    ]
  }

  const PrimaryKey := "id"

  /** Columns of the unique key, in order. */
  const UniqueKey := ["lkey", "location"]

  /** The columns of the creation SQL, in the order it lists them. */
  function Schema(): seq<ColumnDef> {
    [
      ColumnDef("id", BigIntUnsigned, true, true),
      ColumnDef("lkey", VarChar(128), true, false),
      ColumnDef("location", VarChar(191), true, false),
      ColumnDef("activation", DateTime, true, false),
      ColumnDef("deactivation", DateTime, false, false),
      ColumnDef("status", VarChar(20), true, false),
      ColumnDef("release_id", BigInt, false, false)
    ]
  }

  /** The column names of the creation SQL, in its order. */
  function SchemaNames(): (names: seq<string>)
    ensures |names| == |Schema()|
    ensures forall i :: 0 <= i < |names| ==> names[i] == Schema()[i].name
  {
    seq(|Schema()|, i requires 0 <= i < |Schema()| => Schema()[i].name)
  }

  const ColumnNames: set<string> := {"id", "lkey", "location", "status", "activation", "deactivation", "release_id"}

  /** The descriptor's three views of the columns agree and there are exactly seven. */
  lemma ColumnsAgree()
    ensures ColumnFormats().Keys == ColumnNames && ColumnDefaults().Keys == ColumnNames
    ensures (set n | n in SchemaNames()) == ColumnNames
    ensures |Schema()| == 7
  {
    assert SchemaNames() == ["id", "lkey", "location", "activation", "deactivation", "status", "release_id"];
  }

  /**
   * Only `deactivation` and `release_id` may be null; the primary key is the
   * auto-increment id and the unique key is over the key and the location.
   */
  lemma SchemaConstraints()
    ensures forall c :: c in Schema() ==> (!c.notNull <==> c.name in {"deactivation", "release_id"})
    ensures forall c :: c in Schema() ==> (c.autoIncrement <==> c.name == PrimaryKey)
    ensures PrimaryKey == "id" && UniqueKey == ["lkey", "location"]
  {
  }

  /** One row of the store. Dates are integers; null columns are `None`. */
  datatype ActivationRow = ActivationRow(
    id: nat,
    lkey: string,
    location: string,
    status: string,
    activation: int,
    deactivation: Option<int>,
    releaseId: Option<int>)

  /** The store: its rows in insertion order and the next auto-increment id. */
  datatype Table = Table(rows: seq<ActivationRow>, nextId: nat)

  predicate SameSlot(a: ActivationRow, b: ActivationRow) {
    a.lkey == b.lkey && a.location == b.location
  }

  /** Some row, whatever its status, already holds this key at this location. */
  predicate SlotTaken(rows: seq<ActivationRow>, lkey: string, location: string) {
    exists i :: 0 <= i < |rows| && rows[i].lkey == lkey && rows[i].location == location
  }

  /** The unique key `(lkey, location)` holds over all rows. */
  predicate UniqueSlots(rows: seq<ActivationRow>) {
    forall i, j :: 0 <= i < j < |rows| ==> !SameSlot(rows[i], rows[j])
  }

  /** Every id is below the next auto-increment value and ids are distinct. */
  predicate IdsBelow(rows: seq<ActivationRow>, nextId: nat) {
    (forall i :: 0 <= i < |rows| ==> rows[i].id < nextId) &&
    (forall i, j :: 0 <= i < j < |rows| ==> rows[i].id != rows[j].id)
  }

  predicate Valid(t: Table) {
    UniqueSlots(t.rows) && IdsBelow(t.rows, t.nextId)
  }

  function Empty(): (t: Table)
    ensures Valid(t) && t.rows == []
  {
    Table([], 1)
  }

  datatype InsertError = DuplicateSlot

  /**
   * Inserting a row. The id is the next auto-increment value and a status
   * left out takes the descriptor's default. The unique key refuses a second
   * row for the same key and location whatever the status of the first.
   */
  function Insert(t: Table, lkey: string, location: string, status: Option<string>,
                  activation: int, deactivation: Option<int>, releaseId: Option<int>): (r: Result<Table, InsertError>)
    requires Valid(t)
    ensures r.Ok? <==> !SlotTaken(t.rows, lkey, location)
    ensures r.Ok? ==> Valid(r.value)
    ensures r.Ok? ==> r.value.rows == t.rows + [ActivationRow(t.nextId, lkey, location,
                                                              status.GetOr(StatusActive), activation, deactivation, releaseId)]
    ensures r.Ok? ==> r.value.nextId == t.nextId + 1
  {
    if SlotTaken(t.rows, lkey, location) then Err(DuplicateSlot)
    else
      var row := ActivationRow(t.nextId, lkey, location, status.GetOr(StatusActive), activation, deactivation, releaseId);
      Ok(Table(t.rows + [row], t.nextId + 1))
  }

  /** A row left deactivated still blocks a new row at the same location for the same key. */
  lemma DeactivatedRowBlocksSlot(t: Table, i: nat, activation: int)
    requires Valid(t) && i < |t.rows| && t.rows[i].status == "deactivated"
    ensures Insert(t, t.rows[i].lkey, t.rows[i].location, None, activation, None, None).Err?
  {
  }

  /** A row inserted without a status is active. */
  lemma InsertDefaultsToActive(t: Table, lkey: string, location: string, activation: int)
    requires Valid(t) && !SlotTaken(t.rows, lkey, location)
    ensures var r := Insert(t, lkey, location, None, activation, None, None);
            r.Ok? && Last(r.value.rows).status == StatusActive && Last(r.value.rows).deactivation.None?
  {
  }

  function Last(rows: seq<ActivationRow>): ActivationRow
    requires |rows| > 0
  {
    rows[|rows| - 1]
  }

  predicate CountsAsActive(r: ActivationRow, lkey: string) {
    r.lkey == lkey && r.status == StatusActive
  }

  /** The `count(lkey = ..., status = active)` query. */
  function ActiveCount(rows: seq<ActivationRow>, lkey: string): (n: nat)
    ensures n <= |rows|
  {
    if rows == [] then 0
    else ActiveCount(rows[..|rows| - 1], lkey) + (if CountsAsActive(Last(rows), lkey) then 1 else 0)
  }

  /** The set of positions the count query matches. */
  function ActivePositions(rows: seq<ActivationRow>, lkey: string): set<nat> {
    set i: nat | i < |rows| && CountsAsActive(rows[i], lkey)
  }

  /** The count is exactly the number of rows of this key whose status is active. */
  lemma {:induction false} ActiveCountIsMatchingRows(rows: seq<ActivationRow>, lkey: string)
    ensures ActiveCount(rows, lkey) == |ActivePositions(rows, lkey)|
  {
    if rows != [] {
      var init := rows[..|rows| - 1];
      ActiveCountIsMatchingRows(init, lkey);
      var last := |rows| - 1;
      if CountsAsActive(rows[last], lkey) {
        assert ActivePositions(rows, lkey) == ActivePositions(init, lkey) + {last};
      } else {
        assert ActivePositions(rows, lkey) == ActivePositions(init, lkey);
      }
    }
  }

  /** Appending a row adds one to its own key's count if it is active, and nothing to any other key's. */
  lemma ActiveCountAppend(rows: seq<ActivationRow>, r: ActivationRow, lkey: string)
    ensures ActiveCount(rows + [r], lkey) == ActiveCount(rows, lkey) + (if CountsAsActive(r, lkey) then 1 else 0)
  {
    assert (rows + [r])[..|rows + [r]| - 1] == rows;
  }

  /** `delete_many(lkey = ...)`: every row of that key goes, the others keep their order. */
  function DeleteKey(t: Table, lkey: string): (r: Table)
    ensures r.nextId == t.nextId
    ensures forall x :: x in r.rows ==> x in t.rows && x.lkey != lkey
    ensures forall x :: x in t.rows && x.lkey != lkey ==> x in r.rows
  {
    Table(RowsWithoutKey(t.rows, lkey), t.nextId)
  }

  function RowsWithoutKey(rows: seq<ActivationRow>, lkey: string): (r: seq<ActivationRow>)
    ensures |r| <= |rows|
    ensures forall x :: x in r ==> x in rows && x.lkey != lkey
    ensures forall x :: x in rows && x.lkey != lkey ==> x in r
  {
    if rows == [] then []
    else
      var init := RowsWithoutKey(rows[..|rows| - 1], lkey);
      assert forall x :: x in rows[..|rows| - 1] ==> x in rows;
      if Last(rows).lkey == lkey then init else init + [Last(rows)]
  }

  /** After the delete the key has no active rows and every other key keeps its count. */
  lemma {:induction false} DeleteKeyCounts(rows: seq<ActivationRow>, lkey: string, other: string)
    ensures ActiveCount(RowsWithoutKey(rows, lkey), lkey) == 0
    ensures other != lkey ==> ActiveCount(RowsWithoutKey(rows, lkey), other) == ActiveCount(rows, other)
  {
    if rows != [] {
      var init := rows[..|rows| - 1];
      DeleteKeyCounts(init, lkey, other);
      if Last(rows).lkey != lkey {
        ActiveCountAppend(RowsWithoutKey(init, lkey), Last(rows), lkey);
        ActiveCountAppend(RowsWithoutKey(init, lkey), Last(rows), other);
      }
    }
  }

  /** Deleting a key's rows keeps the store's primary and unique keys. */
  lemma {:induction false} DeleteKeyKeepsValid(rows: seq<ActivationRow>, nextId: nat, lkey: string)
    requires Valid(Table(rows, nextId))
    ensures Valid(Table(RowsWithoutKey(rows, lkey), nextId))
  {
    if rows != [] {
      var init := rows[..|rows| - 1];
      assert Valid(Table(init, nextId));
      DeleteKeyKeepsValid(init, nextId, lkey);
      var kept := RowsWithoutKey(init, lkey);
      if Last(rows).lkey != lkey {
        var r := kept + [Last(rows)];
        forall i | 0 <= i < |kept|
          ensures !SameSlot(kept[i], Last(rows)) && kept[i].id != Last(rows).id
        {
          assert kept[i] in init;
          var j :| 0 <= j < |init| && init[j] == kept[i];
          assert rows[j] == kept[i];
        }
        assert RowsWithoutKey(rows, lkey) == r;
      }
    }
  }
}
