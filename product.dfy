/**
 * A licensed product: loading one, choosing the release an activation should
 * be offered, and assembling the product's changelog from its most recent
 * releases through a per-product cache.
 *
 * The product catalogue, the releases store and the object cache are
 * in-memory values; formatting a date with the site's date format is a
 * function handed in by the caller. Release filter hooks are the identity.
 */
module Product {
  import opened Common
  import R = Releases

  // ---------------------------------------------------------------- loading

  const DigitalDownloads := "digital-downloads-product-type"

  /** What the catalogue knows of a product. */
  datatype ProductRecord = ProductRecord(id: int, productType: string)

  /**
   * The constructor's guard as written: `!` binds before `==`, so the
   * negated type (a bool) is compared with a non-empty string, which PHP
   * reads as `true`. The guard fires exactly when the type is empty.
   */
  function ConstructorThrowsAsWritten(productType: string): (throws: bool)
    ensures throws <==> PhpEmpty(productType)
  {
    var negated := PhpEmpty(productType);
    var stringAsBool := !PhpEmpty(DigitalDownloads);
    negated == stringAsBool
  }

  /** A product of another type passes the guard as written. */
  lemma OtherTypeAcceptedAsWritten()
    ensures !ConstructorThrowsAsWritten("physical-product-type")
    ensures ConstructorThrows("physical-product-type")
  {
    assert "physical-product-type"[0] != DigitalDownloads[0];
  }

  /** The guard as intended: anything but a digital-downloads product is refused. */
  function ConstructorThrows(productType: string): (throws: bool)
    ensures throws <==> productType != DigitalDownloads
    ensures PhpEmpty(productType) ==> throws
  {
    productType != DigitalDownloads
  }

  /** `Product::get` as written: no product, or a refused one, is null. */
  function GetAsWritten(id: int, catalogue: map<int, ProductRecord>): (r: Option<ProductRecord>)
    ensures r.Some? <==> id in catalogue && !PhpEmpty(catalogue[id].productType)
    ensures r.Some? ==> r.value == catalogue[id]
  {
    if id !in catalogue then None
    else if ConstructorThrowsAsWritten(catalogue[id].productType) then None
    else Some(catalogue[id])
  }

  /** `Product::get` with the intended guard. */
  function Get(id: int, catalogue: map<int, ProductRecord>): (r: Option<ProductRecord>)
    ensures r.Some? <==> id in catalogue && catalogue[id].productType == DigitalDownloads
    ensures r.Some? ==> r.value == catalogue[id]
  {
    if id !in catalogue then None
    else if ConstructorThrows(catalogue[id].productType) then None
    else Some(catalogue[id])
  }

  /** Every product the intended loader returns, the loader as written returns too. */
  lemma GetNarrowsAsWritten(id: int, catalogue: map<int, ProductRecord>)
    ensures Get(id, catalogue).Some? ==> GetAsWritten(id, catalogue) == Get(id, catalogue)
  {
  }

  // ---------------------------------------------------------- release query

  /**
   * `a` may come before `b` when ordering by start date, newest first; as in
   * the database, a missing date sorts after every date.
   */
  predicate NotBefore(a: Option<int>, b: Option<int>) {
    b.None? || (a.Some? && a.value >= b.value)
  }

  predicate SortedDesc(rs: seq<R.Fields>) {
    forall i, j :: 0 <= i < j < |rs| ==> NotBefore(rs[i].startDate, rs[j].startDate)
  }

  /** Inserting one release into a list sorted newest first. */
  function InsertDesc(x: R.Fields, rs: seq<R.Fields>): (r: seq<R.Fields>)
    requires SortedDesc(rs)
    ensures SortedDesc(r)
    ensures multiset(r) == multiset(rs) + multiset{x}
    ensures forall y :: y in r ==> y == x || y in rs
  {
    if rs == [] then [x]
    else if NotBefore(x.startDate, rs[0].startDate) then
      AheadOfSorted(x, rs);
      SortedCons(x, rs);
      [x] + rs
    else
      var rest := InsertDesc(x, rs[1..]);
      assert rs == [rs[0]] + rs[1..];
      AheadOfSorted(rs[0], rs);
      assert forall y :: y in rest ==> NotBefore(rs[0].startDate, y.startDate);
      SortedCons(rs[0], rest);
      [rs[0]] + rest
  }

  /** A release not older than the head of a sorted list is not older than any of it. */
  lemma AheadOfSorted(x: R.Fields, rs: seq<R.Fields>)
    requires SortedDesc(rs) && rs != [] && NotBefore(x.startDate, rs[0].startDate)
    ensures forall z :: z in rs ==> NotBefore(x.startDate, z.startDate)
  {
    forall z | z in rs
      ensures NotBefore(x.startDate, z.startDate)
    {
      var j :| 0 <= j < |rs| && rs[j] == z;
      if j > 0 {
        assert NotBefore(rs[0].startDate, rs[j].startDate);
      }
    }
  }

  /** Putting a release not older than any of a sorted list in front keeps it sorted. */
  lemma SortedCons(x: R.Fields, rs: seq<R.Fields>)
    requires SortedDesc(rs)
    requires forall z :: z in rs ==> NotBefore(x.startDate, z.startDate)
    ensures SortedDesc([x] + rs)
  {
    var t := [x] + rs;
    forall i, j | 0 <= i < j < |t|
      ensures NotBefore(t[i].startDate, t[j].startDate)
    {
      assert t[j] == rs[j - 1];
      if i > 0 {
        assert t[i] == rs[i - 1];
      } else {
        assert rs[j - 1] in rs;
      }
    }
  }

  /** The store's releases ordered by start date, newest first. */
  function SortDesc(rs: seq<R.Fields>): (r: seq<R.Fields>)
    ensures SortedDesc(r)
    ensures multiset(r) == multiset(rs)
    ensures |r| == |rs|
  {
    if rs == [] then []
    else
      assert rs == [rs[0]] + rs[1..];
      InsertDesc(rs[0], SortDesc(rs[1..]))
  }

  /** A row the query keeps: this product, and one of the statuses when they are given. */
  predicate Matches(x: R.Fields, product: int, statuses: Option<set<string>>) {
    x.product == product && (statuses.None? || x.status in statuses.value)
  }

  function Filter(rs: seq<R.Fields>, product: int, statuses: Option<set<string>>): (r: seq<R.Fields>)
    ensures forall x :: x in r <==> x in rs && Matches(x, product, statuses)
    ensures |r| <= |rs|
  {
    if rs == [] then []
    else
      var rest := Filter(rs[1..], product, statuses);
      assert forall x :: x in rs <==> x == rs[0] || x in rs[1..];
      if Matches(rs[0], product, statuses) then [rs[0]] + rest else rest
  }

  function Min(a: nat, b: nat): nat { if a < b then a else b }

  /**
   * The releases query: this product's releases, optionally restricted to
   * some statuses, newest start date first, at most `limit` of them.
   */
  function Query(rs: seq<R.Fields>, product: int, statuses: Option<set<string>>, limit: nat): (r: seq<R.Fields>)
    ensures |r| == Min(limit, |Filter(rs, product, statuses)|)
    ensures SortedDesc(r)
    ensures forall x :: x in r ==> x in rs && Matches(x, product, statuses)
    ensures multiset(r) <= multiset(Filter(rs, product, statuses))
    ensures r != [] ==> forall y :: y in Filter(rs, product, statuses) && y !in r ==>
                          NotBefore(r[|r| - 1].startDate, y.startDate)
  {
    var m := Filter(rs, product, statuses);
    var sorted := SortDesc(m);
    var n := Min(limit, |sorted|);
    QueryPrefixSorted(sorted, n);
    PrefixKeepsNewest(m, sorted, n);
    sorted[..n]
  }

  /**
   * The first `n` of a list sorted newest first are taken from the list it
   * sorts, and none left out is newer than the last of them.
   */
  lemma PrefixKeepsNewest(m: seq<R.Fields>, s: seq<R.Fields>, n: nat)
    requires SortedDesc(s) && multiset(s) == multiset(m) && n <= |s|
    ensures multiset(s[..n]) <= multiset(m)
    ensures forall x :: x in s[..n] ==> x in m
    ensures n > 0 ==> forall y :: y in m && y !in s[..n] ==> NotBefore(s[n - 1].startDate, y.startDate)
  {
    assert s == s[..n] + s[n..];
    forall x | x in s[..n] ensures x in m {
      assert x in multiset(s);
    }
    if n > 0 {
      forall y | y in m && y !in s[..n] ensures NotBefore(s[n - 1].startDate, y.startDate) {
        assert y in multiset(s);
        var j :| 0 <= j < |s| && s[j] == y;
        assert y in s[n..] by {
          assert forall k :: 0 <= k < n ==> s[k] in s[..n];
        }
        var k :| 0 <= k < |s[n..]| && s[n..][k] == y;
        assert s[n + k] == y;
      }
    }
  }

  lemma QueryPrefixSorted(s: seq<R.Fields>, n: nat)
    requires SortedDesc(s) && n <= |s|
    ensures SortedDesc(s[..n])
  {
  }

  /** A first result of the query is no older than any row the query matches. */
  lemma {:induction false} FirstIsNewest(rs: seq<R.Fields>, product: int, statuses: Option<set<string>>, limit: nat)
    requires limit >= 1
    ensures Query(rs, product, statuses, limit) == [] <==> forall x :: x in rs ==> !Matches(x, product, statuses)
    ensures Query(rs, product, statuses, limit) != [] ==>
              forall y :: y in rs && Matches(y, product, statuses) ==>
                NotBefore(Query(rs, product, statuses, limit)[0].startDate, y.startDate)
  {
    var m := Filter(rs, product, statuses);
    var sorted := SortDesc(m);
    if m != [] {
      assert m[0] in rs;
      assert sorted != [];
      forall y | y in rs && Matches(y, product, statuses)
        ensures NotBefore(sorted[0].startDate, y.startDate)
      {
        assert y in multiset(sorted);
        var j :| 0 <= j < |sorted| && sorted[j] == y;
        if j > 0 {
          assert NotBefore(sorted[0].startDate, sorted[j].startDate);
        } else {
          assert sorted[0] == y;
        }
      }
      assert Query(rs, product, statuses, limit)[0] == sorted[0];
    } else {
      assert forall x :: x in rs ==> !Matches(x, product, statuses);
    }
  }

  // ---------------------------------------------- release for an activation

  const PreReleaseTrack := "pre-release"

  /**
   * The release of a product with a given version. Which of several such
   * rows the store returns is not part of the model; this takes the first.
   */
  function ByVersion(rs: seq<R.Fields>, product: int, version: string): (r: Option<R.Fields>)
    ensures r.Some? ==> r.value in rs && r.value.product == product && r.value.version == version
    ensures r.None? <==> forall x :: x in rs ==> !(x.product == product && x.version == version)
  {
    if rs == [] then None
    else if rs[0].product == product && rs[0].version == version then Some(rs[0])
    else
      assert forall x :: x in rs <==> x == rs[0] || x in rs[1..];
      ByVersion(rs[1..], product, version)
  }

  /**
   * `get_latest_release_for_activation`. `track` is the activation's track
   * meta ("" when unset), `licensingVersion` the product's configured
   * version and `keyProduct` the product of the activation's key.
   */
  function LatestReleaseForActivation(rs: seq<R.Fields>, product: int, track: string,
                                      licensingVersion: string, keyProduct: int): (r: Option<R.Fields>)
    ensures track != PreReleaseTrack ==> r == ByVersion(rs, product, licensingVersion)
    ensures track == PreReleaseTrack ==>
              (r.None? <==> forall x :: x in rs ==> x.product != keyProduct)
    ensures track == PreReleaseTrack && r.Some? ==>
              r.value in rs && r.value.product == keyProduct &&
              forall y :: y in rs && y.product == keyProduct ==> NotBefore(r.value.startDate, y.startDate)
  {
    if PhpEmpty(track) || track != PreReleaseTrack then ByVersion(rs, product, licensingVersion)
    else
      var newest := Query(rs, keyProduct, None, 1);
      FirstIsNewest(rs, keyProduct, None, 1);
      if newest == [] then None else Some(newest[0])
  }

  /**
   * The pre-release track ignores the configured version; every other track
   * ignores the key's product and behaves as the empty track.
   */
  lemma TrackDecides(rs: seq<R.Fields>, product: int, track: string, v1: string, v2: string,
                     keyProduct: int, k2: int)
    ensures track == PreReleaseTrack ==>
              LatestReleaseForActivation(rs, product, track, v1, keyProduct) ==
              LatestReleaseForActivation(rs, product, track, v2, keyProduct)
    ensures track != PreReleaseTrack ==>
              LatestReleaseForActivation(rs, product, track, v1, keyProduct) ==
              LatestReleaseForActivation(rs, product, track, v1, k2)
    ensures track != PreReleaseTrack ==>
              LatestReleaseForActivation(rs, product, track, v1, keyProduct) ==
              LatestReleaseForActivation(rs, product, "", v1, keyProduct)
  {
  }

  // -------------------------------------------------------------- changelog

  const EnDash := "\U{2013}"

  /** The heading of one release's changelog entry. */
  function Heading(version: string, date: string): string {
    "<strong>v" + version + " " + EnDash + " " + date + "</strong>"
  }

  /** One release's entry: its heading followed by its changelog; a release without a start date is fatal. */
  function Entry(x: R.Fields, format: int -> string): (e: Option<string>)
    ensures e.None? <==> x.startDate.None?
    ensures e.Some? ==> var h := Heading(x.version, format(x.startDate.value));
                        h <= e.value && e.value[|h|..] == x.changelog
  {
    if x.startDate.None? then None
    else Some(Heading(x.version, format(x.startDate.value)) + x.changelog)
  }

  /** Every release has a start date. */
  predicate AllDated(rs: seq<R.Fields>) {
    forall i :: 0 <= i < |rs| ==> rs[i].startDate.Some?
  }

  /** The log of some releases: their entries one after the other, or a fatal error when one has no start date. */
  function ChangelogText(rs: seq<R.Fields>, format: int -> string): (r: Option<string>)
    ensures r.Some? <==> AllDated(rs)
    decreases |rs|
  {
    if rs == [] then Some("")
    else
      var init := ChangelogText(rs[..|rs| - 1], format);
      var last := Entry(rs[|rs| - 1], format);
      if init.None? || last.None? then None else Some(init.value + last.value)
  }

  /** The log of two runs of releases is the log of the first followed by the log of the second. */
  lemma {:induction false} ChangelogTextAppend(a: seq<R.Fields>, b: seq<R.Fields>, format: int -> string)
    requires AllDated(a) && AllDated(b)
    ensures AllDated(a + b)
    ensures ChangelogText(a + b, format) == Some(ChangelogText(a, format).value + ChangelogText(b, format).value)
    decreases |b|
  {
    if b == [] {
      assert a + b == a;
      assert ChangelogText(b, format) == Some("");
      assert ChangelogText(a, format).value + "" == ChangelogText(a, format).value;
    } else {
      var b' := b[..|b| - 1];
      assert (a + b)[..|a + b| - 1] == a + b';
      assert (a + b)[|a + b| - 1] == b[|b| - 1];
      assert AllDated(b');
      ChangelogTextAppend(a, b', format);
      var e := Entry(b[|b| - 1], format);
      assert e.Some?;
      assert ChangelogText(b, format) == Some(ChangelogText(b', format).value + e.value);
      assert ChangelogText(a + b, format) == Some(ChangelogText(a + b', format).value + e.value);
      var ta, tb := ChangelogText(a, format).value, ChangelogText(b', format).value;
      assert (ta + tb) + e.value == ta + (tb + e.value);
    }
  }

  /** A non-empty log opens with the heading of the newest release. */
  lemma OpensWithNewest(rs: seq<R.Fields>, format: int -> string)
    requires rs != [] && AllDated(rs)
    ensures ChangelogText(rs, format).Some?
    ensures Heading(rs[0].version, format(rs[0].startDate.value)) <= ChangelogText(rs, format).value
  {
    assert rs == [rs[0]] + rs[1..];
    assert AllDated(rs[1..]);
    ChangelogTextAppend([rs[0]], rs[1..], format);
    assert [rs[0]][..0] == [];
  }

  /** The loop of `get_changelog`: one entry per release, appended in order. */
  method BuildChangelog(rs: seq<R.Fields>, format: int -> string) returns (r: Option<string>)
    ensures r == ChangelogText(rs, format)
  {
    var log := "";
    var i := 0;
    while i < |rs|
      invariant 0 <= i <= |rs|
      invariant ChangelogText(rs[..i], format) == Some(log)
    {
      var e := Entry(rs[i], format);
      assert rs[..i + 1][..i] == rs[..i];
      if e.None? {
        ChangelogTextFails(rs, i, format);
        return None;
      }
      log := log + e.value;
      i := i + 1;
    }
    assert rs[..|rs|] == rs;
    r := Some(log);
  }

  /** A release without a start date makes the log fatal whatever follows it. */
  lemma ChangelogTextFails(rs: seq<R.Fields>, i: nat, format: int -> string)
    requires i < |rs| && rs[i].startDate.None?
    ensures ChangelogText(rs, format).None?
  {
  }

  /** The statuses the changelog is evidently meant to list: every published one. */
  function ChangelogStatuses(): (s: set<string>)
    ensures R.StatusDraft !in s
    ensures forall t :: t in s ==> R.IsStatus(t)
  {
    R.StatusesExactly(R.StatusActive);
    R.StatusesExactly(R.StatusPartial);
    R.StatusesExactly(R.StatusComplete);
    {R.StatusActive, R.StatusPartial, R.StatusComplete}
  }

  /** `Release::STATUS_...` by constant name; a name the class does not define has no value. */
  function ReleaseConstant(name: string): (v: Option<string>)
    ensures v.Some? ==> R.IsStatus(v.value)
    ensures name == "STATUS_ACTIVE" ==> v == Some(R.StatusActive)
  {
    R.StatusesExactly(R.StatusDraft);
    R.StatusesExactly(R.StatusActive);
    R.StatusesExactly(R.StatusPartial);
    R.StatusesExactly(R.StatusComplete);
    if name == "STATUS_DRAFT" then Some(R.StatusDraft)
    else if name == "STATUS_ACTIVE" then Some(R.StatusActive)
    else if name == "STATUS_PARTIAL" then Some(R.StatusPartial)
    else if name == "STATUS_COMPLETE" then Some(R.StatusComplete)
    else None
  }

  /** What asking for the changelog gives. */
  datatype Changelog = Log(text: string) | Fatal

  /** A cached value PHP treats as present: found and truthy. */
  predicate CacheHit(cached: Option<string>) {
    cached.Some? && !PhpEmpty(cached.value)
  }

  /**
   * `get_changelog` as written: a cache miss builds the status list from
   * the constants `STATUS_ACTIVE`, `STATUS_ARCHIVED` and `STATUS_PAUSED`;
   * the last two are not defined, which is a fatal error.
   */
  function ChangelogAsWritten(cached: Option<string>): (r: Changelog)
    ensures CacheHit(cached) ==> r == Log(cached.value)
    ensures !CacheHit(cached) ==> r == Fatal
  {
    if CacheHit(cached) then Log(cached.value)
    else
      var names := ["STATUS_ACTIVE", "STATUS_ARCHIVED", "STATUS_PAUSED"];
      ArchivedUndefined();
      assert ReleaseConstant(names[1]).None?;
      if exists i :: 0 <= i < |names| && ReleaseConstant(names[i]).None? then Fatal
      else Log("")
  }

  /** Every product whose changelog is not cached fails as written, e.g. one with no cache entry. */
  lemma MissIsFatalAsWritten()
    ensures ChangelogAsWritten(None) == Fatal
    ensures ChangelogAsWritten(Some("")) == Fatal
    ensures ChangelogAsWritten(Some("0")) == Fatal
  {
  }

  /** `Release` defines no `STATUS_ARCHIVED`. */
  lemma ArchivedUndefined()
    ensures ReleaseConstant("STATUS_ARCHIVED").None?
  {
    assert |"STATUS_ARCHIVED"| == 15;
  }

  /** The object cache's changelog group: product id to the cached log. */
  class ChangelogCache {
    var entries: map<int, string>

    constructor ()
      ensures entries == map[]
    {
      entries := map[];
    }

    function Cached(product: int): Option<string>
      reads this
    {
      if product in entries then Some(entries[product]) else None
    }
  }

  /**
   * `get_changelog($num)`: a truthy cached log is returned as is; otherwise
   * the newest `num` published releases are rendered, and the log is cached
   * and returned.
   */
  method GetChangelog(cache: ChangelogCache, product: int, num: nat, rs: seq<R.Fields>,
                      format: int -> string) returns (r: Changelog)
    modifies cache
    ensures CacheHit(old(cache.Cached(product))) ==>
              r == Log(old(cache.Cached(product)).value) && cache.entries == old(cache.entries)
    ensures !CacheHit(old(cache.Cached(product))) ==>
              var text := ChangelogText(Query(rs, product, Some(ChangelogStatuses()), num), format);
              (text.None? ==> r == Fatal && cache.entries == old(cache.entries)) &&
              (text.Some? ==> r == Log(text.value) && cache.entries == old(cache.entries)[product := text.value])
  {
    var cached := cache.Cached(product);
    if CacheHit(cached) {
      return Log(cached.value);
    }
    var releases := Query(rs, product, Some(ChangelogStatuses()), num);
    var text := BuildChangelog(releases, format);
    if text.None? {
      return Fatal;
    }
    cache.entries := cache.entries[product := text.value];
    r := Log(text.value);
  }
}
