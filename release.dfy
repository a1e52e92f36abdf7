/**
 * A release of a licensed product: its closed sets of statuses and types,
 * the checks run when a row is loaded and when a release is created, and
 * the setters that change a field and write it back to the releases store.
 *
 * Dates are integers. The stored start date is text; turning text into a
 * date and a date into text are functions handed in by the caller, as are
 * the product, download and licensing lookups and the HTML filter applied
 * to a new changelog.
 */
module Releases {
  import opened Common

  const TypeMajor := "major"
  const TypeMinor := "minor"
  const TypeSecurity := "security"
  const TypePreRelease := "pre-release"
  const TypeRestricted := "restricted"

  const StatusDraft := "draft"
  const StatusActive := "active"
  const StatusPartial := "partial"
  const StatusComplete := "complete"

  /** `get_statuses`, in the source's order. */
  function Statuses(): seq<(string, string)> {
    [(StatusDraft, "Draft"), (StatusActive, "Active"), (StatusPartial, "Partial"), (StatusComplete, "Complete")]
  }

  /** `get_types`, in the source's order. */
  function Types(): seq<(string, string)> {
    [(TypeMajor, "Major Release"), (TypeMinor, "Minor Release"), (TypeSecurity, "Security Release"),
     (TypePreRelease, "Pre-release"), (TypeRestricted, "Restricted Release")]
  }

  predicate HasSlug(table: seq<(string, string)>, s: string) {
    exists i :: 0 <= i < |table| && table[i].0 == s
  }

  predicate IsStatus(s: string) { HasSlug(Statuses(), s) }

  predicate IsType(t: string) { HasSlug(Types(), t) }

  /** The statuses are exactly draft, active, partial and complete; "archived" and "paused" are not among them. */
  lemma StatusesExactly(s: string)
    ensures IsStatus(s) <==> s == StatusDraft || s == StatusActive || s == StatusPartial || s == StatusComplete
    ensures !IsStatus("archived") && !IsStatus("paused")
  {
    if s == StatusDraft { assert Statuses()[0].0 == s; }
    if s == StatusActive { assert Statuses()[1].0 == s; }
    if s == StatusPartial { assert Statuses()[2].0 == s; }
    if s == StatusComplete { assert Statuses()[3].0 == s; }
    assert !HasSlug(Statuses(), "archived") by {
      forall i | 0 <= i < |Statuses()| ensures Statuses()[i].0 != "archived" {
        assert "archived"[0] == 'a' && "archived"[1] == 'r';
      }
    }
    assert !HasSlug(Statuses(), "paused") by {
      forall i | 0 <= i < |Statuses()| ensures Statuses()[i].0 != "paused" {
        assert "paused"[0] == 'p' && "paused"[1] == 'a';
      }
    }
  }

  /** The types are exactly the five listed. */
  lemma TypesExactly(t: string)
    ensures IsType(t) <==> t == TypeMajor || t == TypeMinor || t == TypeSecurity || t == TypePreRelease || t == TypeRestricted
  {
    if t == TypeMajor { assert Types()[0].0 == t; }
    if t == TypeMinor { assert Types()[1].0 == t; }
    if t == TypeSecurity { assert Types()[2].0 == t; }
    if t == TypePreRelease { assert Types()[3].0 == t; }
    if t == TypeRestricted { assert Types()[4].0 == t; }
  }

  /** A stored start date: SQL NULL or some text. */
  datatype DateCell = SqlNull | Text(s: string)

  const ZeroDate := "0000-00-00 00:00:00"

  /** A row of the releases store. */
  datatype ReleaseRow = ReleaseRow(id: int, product: int, download: int, version: string, status: string,
                                   rtype: string, changelog: string, startDate: DateCell)

  /** The fields of a loaded release. */
  datatype Fields = Fields(id: int, product: int, download: int, version: string, status: string,
                           rtype: string, changelog: string, startDate: Option<int>)

  /** The start date a stored cell loads as: none for NULL, an empty value and the zero date. */
  function StartDateOf(cell: DateCell, parse: string -> int): (r: Option<int>)
    ensures r.None? <==> cell.SqlNull? || PhpEmpty(cell.s) || cell.s == ZeroDate
    ensures r.Some? ==> r.value == parse(cell.s)
  {
    if cell.Text? && !PhpEmpty(cell.s) && cell.s != ZeroDate then Some(parse(cell.s)) else None
  }

  /**
   * The constructor: the product must exist, then the status and then the
   * type must be known; the first failure names the error.
   */
  function FromRow(row: ReleaseRow, products: set<int>, parse: string -> int): (r: Result<Fields, string>)
    ensures r.Ok? <==> row.product in products && IsStatus(row.status) && IsType(row.rtype)
    ensures row.product !in products ==> r == Err("Invalid product.")
    ensures row.product in products && !IsStatus(row.status) ==> r == Err("Invalid status.")
    ensures row.product in products && IsStatus(row.status) && !IsType(row.rtype) ==> r == Err("Invalid type.")
    ensures r.Ok? ==> r.value.status == row.status && r.value.rtype == row.rtype && r.value.version == row.version &&
                      r.value.changelog == row.changelog && r.value.startDate == StartDateOf(row.startDate, parse)
  {
    if row.product !in products then Err("Invalid product.")
    else if !IsStatus(row.status) then Err("Invalid status.")
    else if !IsType(row.rtype) then Err("Invalid type.")
    else Ok(Fields(row.id, row.product, row.download, row.version, row.status, row.rtype, row.changelog,
                   StartDateOf(row.startDate, parse)))
  }

  /** `set_changelog`: "append" appends to the current text, any other mode replaces it. */
  function ChangelogAfter(current: string, text: string, mode: string): (r: string)
    ensures mode == "append" ==> r == current + text && current <= r
    ensures mode != "append" ==> r == text
  {
    if mode == "append" then current + text else text
  }

  /** Appending twice appends both, in order; a replace forgets everything before it. */
  lemma ChangelogHistory(c: string, a: string, b: string, mode: string)
    ensures ChangelogAfter(ChangelogAfter(c, a, "append"), b, "append") == c + a + b
    ensures mode != "append" ==> ChangelogAfter(ChangelogAfter(c, a, "append"), b, mode) == b
  {
  }

  /** A column written by `update_value`. */
  datatype Column =
    | DownloadCol(download: int)
    | VersionCol(version: string)
    | StatusCol(status: string)
    | TypeCol(rtype: string)
    | ChangelogCol(changelog: string)
    | StartCol(cell: DateCell)

  function WithColumn(row: ReleaseRow, c: Column): ReleaseRow {
    match c
    case DownloadCol(d) => row.(download := d)
    case VersionCol(v) => row.(version := v)
    case StatusCol(s) => row.(status := s)
    case TypeCol(t) => row.(rtype := t)
    case ChangelogCol(t) => row.(changelog := t)
    case StartCol(d) => row.(startDate := d)
  }

  /** `update_value`: one column of one row; every other row is untouched. */
  function UpdateValue(rows: map<int, ReleaseRow>, id: int, c: Column): (r: map<int, ReleaseRow>)
    ensures r.Keys == rows.Keys
    ensures forall k :: k in rows && k != id ==> r[k] == rows[k]
    ensures id in rows ==> r[id] == WithColumn(rows[id], c)
  {
    UpdateEntry(rows, id, row => WithColumn(row, c))
  }

  /** The cell `set_start_date` writes: NULL for none, the formatted date otherwise. */
  function StartCell(d: Option<int>, format: int -> string): (c: DateCell)
    ensures d.None? ==> c == SqlNull
    ensures d.Some? ==> c == Text(format(d.value))
  {
    if d.None? then SqlNull else Text(format(d.value))
  }

  /**
   * A start date written back and loaded again is the same date, as long as
   * parsing undoes formatting and the formatted date is neither empty nor the
   * zero date.
   */
  lemma StartDateRoundTrip(d: Option<int>, format: int -> string, parse: string -> int)
    requires d.Some? ==> IsDateText(format(d.value)) && parse(format(d.value)) == d.value
    ensures StartDateOf(StartCell(d, format), parse) == d
  {
  }

  /** Text that loads as a date: not empty and not the zero date. */
  predicate IsDateText(s: string) {
    !PhpEmpty(s) && s != ZeroDate
  }

  /** The releases store and its auto-increment counter. */
  class ReleaseStore {
    var rows: map<int, ReleaseRow>
    var nextId: int

    /** The auto-increment counter lies above every id in use. */
    ghost predicate Valid()
      reads this
    {
      forall k :: k in rows ==> k < nextId
    }

    constructor ()
      ensures Valid()
      ensures rows == map[] && nextId == 1
    {
      rows := map[];
      nextId := 1;
    }
  }

  /** The outcome of a setter: done, or the message of the exception it threw. */
  datatype Outcome = Done | Threw(message: string)

  /** A post as `get_post` returns it. */
  datatype Post = Post(id: int, postType: string)

  /** What `get_post` hands back, as a PHP value: null, or a `WP_Post` object. */
  datatype PostValue = NullPost | PostObject(post: Post)

  function GetPostValue(post: Option<Post>): PostValue {
    match post
    case None => NullPost
    case Some(p) => PostObject(p)
  }

  /**
   * PHP's loose `==` between that value and a string: null is compared as
   * the empty string, and a `WP_Post`, which has no `__toString`, is equal
   * to no string.
   */
  function LooseEqualsString(v: PostValue, s: string): bool {
    match v
    case NullPost => s == ""
    case PostObject(_) => false
  }

  /**
   * `set_download`'s check as written: the value `get_post` returns is
   * compared with the string 'it_exchange_download', and the download is
   * accepted only when the `!=` is false. No post, and no missing post,
   * passes.
   */
  function DownloadCheckAsWritten(post: Option<Post>): (accepted: bool)
    ensures !accepted
  {
    var refused := !LooseEqualsString(GetPostValue(post), "it_exchange_download");
    !refused
  }

  /** The intended check: the post exists and is a download. */
  function DownloadCheck(post: Option<Post>): (accepted: bool)
    ensures accepted <==> post.Some? && post.value.postType == "it_exchange_download"
  {
    post.Some? && post.value.postType == "it_exchange_download"
  }

  /** The discrepancy: a genuine download post is refused by the check as written. */
  lemma DownloadCheckRefusesDownloads()
    ensures DownloadCheck(Some(Post(7, "it_exchange_download")))
    ensures !DownloadCheckAsWritten(Some(Post(7, "it_exchange_download")))
  {
  }

  /** A loaded release. Each setter assigns its field and writes the same value back. */
  class Release {
    const id: int
    const product: int
    var download: int
    var version: string
    var status: string
    var rtype: string
    var changelog: string
    var startDate: Option<int>
    const store: ReleaseStore

    function State(): Fields
      reads this
    {
      Fields(id, product, download, version, status, rtype, changelog, startDate)
    }

    constructor (f: Fields, store: ReleaseStore)
      ensures State() == f && this.store == store
    {
      id := f.id;
      product := f.product;
      download := f.download;
      version := f.version;
      status := f.status;
      rtype := f.rtype;
      changelog := f.changelog;
      startDate := f.startDate;
      this.store := store;
    }

    /** `set_download`, with the post type checked as intended. */
    method SetDownload(d: int, getPost: int -> Option<Post>) returns (r: Outcome)
      modifies this, store`rows
      ensures DownloadCheck(getPost(d)) ==>
                r == Done && State() == old(State()).(download := d) && store.rows == UpdateValue(old(store.rows), id, DownloadCol(d))
      ensures !DownloadCheck(getPost(d)) ==>
                r == Threw("Invalid post type for download.") && State() == old(State()) && store.rows == old(store.rows)
    {
      if !DownloadCheck(getPost(d)) {
        return Threw("Invalid post type for download.");
      }
      download := d;
      store.rows := UpdateValue(store.rows, id, DownloadCol(d));
      r := Done;
    }

    /** `set_version`: any text is accepted. */
    method SetVersion(v: string)
      modifies this, store`rows
      ensures State() == old(State()).(version := v)
      ensures store.rows == UpdateValue(old(store.rows), id, VersionCol(v))
    {
      version := v;
      store.rows := UpdateValue(store.rows, id, VersionCol(v));
    }

    /** `set_status`: an unknown status throws before anything is assigned. */
    method SetStatus(s: string) returns (r: Outcome)
      modifies this, store`rows
      ensures IsStatus(s) ==> r == Done && State() == old(State()).(status := s) && store.rows == UpdateValue(old(store.rows), id, StatusCol(s))
      ensures !IsStatus(s) ==> r == Threw("Invalid status.") && State() == old(State()) && store.rows == old(store.rows)
    {
      if !IsStatus(s) {
        return Threw("Invalid status.");
      }
      status := s;
      store.rows := UpdateValue(store.rows, id, StatusCol(s));
      r := Done;
    }

    /** `set_type`: an unknown type throws before anything is assigned. */
    method SetType(t: string) returns (r: Outcome)
      modifies this, store`rows
      ensures IsType(t) ==> r == Done && State() == old(State()).(rtype := t) && store.rows == UpdateValue(old(store.rows), id, TypeCol(t))
      ensures !IsType(t) ==> r == Threw("Invalid type.") && State() == old(State()) && store.rows == old(store.rows)
    {
      if !IsType(t) {
        return Threw("Invalid type.");
      }
      rtype := t;
      store.rows := UpdateValue(store.rows, id, TypeCol(t));
      r := Done;
    }

    /** `set_changelog`. */
    method SetChangelog(text: string, mode: string)
      modifies this, store`rows
      ensures State() == old(State()).(changelog := ChangelogAfter(old(changelog), text, mode))
      ensures store.rows == UpdateValue(old(store.rows), id, ChangelogCol(changelog))
    {
      if mode == "append" {
        changelog := changelog + text;
      } else {
        changelog := text;
      }
      store.rows := UpdateValue(store.rows, id, ChangelogCol(changelog));
    }

    /** `set_start_date`: none is written as NULL. */
    method SetStartDate(d: Option<int>, format: int -> string)
      modifies this, store`rows
      ensures State() == old(State()).(startDate := d)
      ensures store.rows == UpdateValue(old(store.rows), id, StartCol(StartCell(d, format)))
    {
      startDate := d;
      var cell := if d.Some? then Text(format(d.value)) else SqlNull;
      store.rows := UpdateValue(store.rows, id, StartCol(cell));
    }
  }

  /** The calls into the shop and the site that creating and loading a release make. */
  datatype Env = Env(products: set<int>, downloads: set<int>, licensed: set<int>,
                     kses: string -> string, parse: string -> int, now: string)

  /**
   * The checks `create` runs, in order, once an empty status has become draft:
   * status, type, download post type, licensing feature.
   */
  function CreateCheck(product: int, download: int, rtype: string, status: string, env: Env): (r: Result<string, string>)
    ensures r.Ok? <==> IsStatus(if PhpEmpty(status) then StatusDraft else status) && IsType(rtype) &&
                       download in env.downloads && product in env.licensed
    ensures r.Ok? ==> r.value == if PhpEmpty(status) then StatusDraft else status
    ensures !IsStatus(if PhpEmpty(status) then StatusDraft else status) ==> r == Err("Invalid status.")
    ensures IsStatus(if PhpEmpty(status) then StatusDraft else status) && !IsType(rtype) ==> r == Err("Invalid type.")
  {
    var s := if PhpEmpty(status) then StatusDraft else status;
    if !IsStatus(s) then Err("Invalid status.")
    else if !IsType(rtype) then Err("Invalid type.")
    else if download !in env.downloads then Err("Invalid download ID.")
    else if product !in env.licensed then Err("Product given does not have the licensing feature enabled.")
    else Ok(s)
  }

  /** The row `create` inserts: filtered changelog, and a start date only for an active release. */
  function NewRow(id: int, product: int, download: int, version: string, rtype: string, status: string,
                  changelog: string, env: Env): (row: ReleaseRow)
    ensures row.startDate.Text? <==> status == StatusActive
    ensures row.startDate.Text? ==> row.startDate.s == env.now
    ensures row.changelog == env.kses(changelog) && row.status == status && row.rtype == rtype && row.version == version
  {
    ReleaseRow(id, product, download, version, status, rtype, env.kses(changelog),
               if status == StatusActive then Text(env.now) else SqlNull)
  }

  /**
   * Created and then loaded: a release created with an empty status is a
   * draft without a start date, and one created active loads with the
   * current time as its start date.
   */
  lemma CreatedReleaseLoads(id: int, product: int, download: int, version: string, rtype: string, status: string,
                            changelog: string, env: Env)
    requires CreateCheck(product, download, rtype, status, env).Ok? && product in env.products
    requires !PhpEmpty(env.now) && env.now != ZeroDate
    ensures var s := CreateCheck(product, download, rtype, status, env).value;
            var f := FromRow(NewRow(id, product, download, version, rtype, s, changelog, env), env.products, env.parse);
            f.Ok? && f.value.status == s &&
            (PhpEmpty(status) ==> f.value.status == StatusDraft && f.value.startDate.None?) &&
            (f.value.startDate.Some? <==> s == StatusActive) &&
            (s == StatusActive ==> f.value.startDate == Some(env.parse(env.now)))
  {
  }

  /** What `with_id` gives: no row, a row the constructor refuses, or a release. */
  datatype Loaded = NoSuchRelease | Invalid(message: string) | Found(release: Release)

  /** `with_id`. */
  method WithId(store: ReleaseStore, id: int, env: Env) returns (r: Loaded)
    ensures id !in store.rows ==> r == NoSuchRelease
    ensures id in store.rows ==> match FromRow(store.rows[id], env.products, env.parse)
            case Err(e) => r == Invalid(e)
            case Ok(f) => r.Found? && fresh(r.release) && r.release.State() == f && r.release.store == store
  {
    if id !in store.rows {
      return NoSuchRelease;
    }
    match FromRow(store.rows[id], env.products, env.parse)
    case Err(e) => r := Invalid(e);
    case Ok(f) =>
      var rel := new Release(f, store);
      r := Found(rel);
  }

  /** `create`: run the checks, insert the row under the next id, then load it. */
  method Create(store: ReleaseStore, product: int, download: int, version: string, rtype: string,
                status: string, changelog: string, env: Env) returns (r: Result<Loaded, string>)
    requires store.Valid()
    modifies store
    ensures store.Valid()
    ensures old(store.nextId) !in old(store.rows)
    ensures match CreateCheck(product, download, rtype, status, env)
            case Err(e) => r == Err(e) && store.rows == old(store.rows) && store.nextId == old(store.nextId)
            case Ok(s) =>
              var row := NewRow(old(store.nextId), product, download, version, rtype, s, changelog, env);
              store.rows == old(store.rows)[old(store.nextId) := row] && store.nextId == old(store.nextId) + 1 &&
              store.rows.Keys == old(store.rows).Keys + {old(store.nextId)} &&
              r.Ok? && match FromRow(row, env.products, env.parse)
                       case Err(e) => r.value == Invalid(e)
                       case Ok(f) => r.value.Found? && fresh(r.value.release) && r.value.release.State() == f &&
                                     r.value.release.store == store
  {
    assert forall k :: k in store.rows ==> k < store.nextId;
    assert store.nextId !in store.rows;
    match CreateCheck(product, download, rtype, status, env)
    case Err(e) => r := Err(e);
    case Ok(s) =>
      var id := store.nextId;
      var row := NewRow(id, product, download, version, rtype, s, changelog, env);
      store.rows := store.rows[id := row];
      store.nextId := id + 1;
      var loaded := WithId(store, id, env);
      r := Ok(loaded);
  }
}
