/**
 * The `FROM` tag of the query builder: a tag name and a value listing the
 * tables a query reads, each optionally followed by an alias.
 *
 * The parent tag class, which stores the tag and the value, is not part of
 * this model; it is taken to keep both as given.
 */
module FromTag {
  import opened Common

  /** A table with an optional alias. */
  datatype TableRef = TableRef(table: string, alias: Option<string>)

  /** The text a table contributes: its name, then `" alias"` when an alias is given. */
  function Render(t: TableRef): (r: string)
    ensures t.table <= r
    ensures t.alias.None? <==> r == t.table
    ensures t.alias.Some? ==> r[|t.table|..] == " " + t.alias.value
  {
    match t.alias
    case None => t.table
    case Some(alias) => t.table + " " + alias
  }

  function RenderAll(ts: seq<TableRef>): (r: seq<string>)
    ensures |r| == |ts| && forall i :: 0 <= i < |ts| ==> r[i] == Render(ts[i])
  {
    if ts == [] then [] else [Render(ts[0])] + RenderAll(ts[1..])
  }

  /** The value of a tag listing the given tables in order, separated by `", "`. */
  function Listing(ts: seq<TableRef>): string {
    Join(RenderAll(ts), ", ")
  }

  /** Joining one more piece adds the separator and the piece at the end. */
  lemma {:induction false} JoinSnoc(parts: seq<string>, x: string, sep: string)
    requires |parts| >= 1
    ensures Join(parts + [x], sep) == Join(parts, sep) + sep + x
    decreases |parts|
  {
    if |parts| == 1 {
      assert (parts + [x])[1..] == [x];
    } else {
      assert (parts + [x])[1..] == parts[1..] + [x];
      JoinSnoc(parts[1..], x, sep);
    }
  }

  /** Listing one more table appends `", "` and that table to the listing. */
  lemma ListingSnoc(ts: seq<TableRef>, t: TableRef)
    requires |ts| >= 1
    ensures Listing(ts + [t]) == Listing(ts) + ", " + Render(t)
  {
    assert RenderAll(ts + [t]) == RenderAll(ts) + [Render(t)];
    JoinSnoc(RenderAll(ts), Render(t), ", ");
  }

  /** A listing of one table is that table's text. */
  lemma ListingOne(t: TableRef)
    ensures Listing([t]) == Render(t)
  {
    assert RenderAll([t]) == [Render(t)];
  }

  class From {
    var tag: string
    var value: string
    /** The tables named so far, first the constructor's, then each `also`'s. */
    ghost var tables: seq<TableRef>

    ghost predicate Valid()
      reads this
    {
      |tables| >= 1 && value == Listing(tables)
    }

    /** A `FROM` tag on one table, aliased when an alias is given. */
    constructor (table: string, alias: Option<string>)
      ensures Valid()
      ensures tag == "FROM"
      ensures tables == [TableRef(table, alias)]
      ensures value == Render(TableRef(table, alias))
    {
      var text := table;
      if alias.Some? {
        text := text + " " + alias.value;
      }
      tag := "FROM";
      value := text;
      tables := [TableRef(table, alias)];
      ListingOne(TableRef(table, alias));
    }

    /** `also`: one more table, appended after a comma to the existing value. */
    method Also(table: string, alias: Option<string>)
      requires Valid()
      modifies this
      ensures Valid()
      ensures tag == old(tag)
      ensures tables == old(tables) + [TableRef(table, alias)]
      ensures value == old(value) + ", " + Render(TableRef(table, alias))
    {
      var text := table;
      if alias.Some? {
        text := text + " " + alias.value;
      }
      value := value + ", " + text;
      ListingSnoc(tables, TableRef(table, alias));
      tables := tables + [TableRef(table, alias)];
    }
  }

  /**
   * A tag built on a table and then extended with further tables lists all
   * of them in call order; each earlier value is a prefix of the later ones.
   */
  lemma {:induction false} ListingPrefix(ts: seq<TableRef>, k: nat)
    requires 1 <= k <= |ts|
    ensures Listing(ts[..k]) <= Listing(ts)
    decreases |ts| - k
  {
    if k < |ts| {
      ListingPrefix(ts, k + 1);
      assert ts[..k + 1] == ts[..k] + [ts[k]];
      ListingSnoc(ts[..k], ts[k]);
    } else {
      assert ts[..k] == ts;
    }
  }

  /** Two tables, the second aliased: `"a, b c"`. */
  lemma TwoTables(a: string, b: string, c: string)
    ensures Listing([TableRef(a, None), TableRef(b, Some(c))]) == a + ", " + b + " " + c
  {
    ListingSnoc([TableRef(a, None)], TableRef(b, Some(c)));
    ListingOne(TableRef(a, None));
    assert [TableRef(a, None)] + [TableRef(b, Some(c))] == [TableRef(a, None), TableRef(b, Some(c))];
  }
}
