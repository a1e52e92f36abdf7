/**
 * The `wp itelic key` command: how a key argument is resolved, either by an
 * exact lookup or, when it ends in "...", by a prefix search; what `get`,
 * `extend`, `renew`, `expire` and `disable` then do to the key; the
 * arguments `create` passes on; the release types a track may receive; and
 * the guards before activations are generated for a key.
 *
 * The keys table is a sequence of rows in table order. The effect of a
 * command on a key is stated on its `LicenseKey.KeyState`; writing it back
 * is the key record's business.
 */
module KeyCommand {
  import opened Common
  import LK = LicenseKey
  import R = Releases
  import P = Product

  // ------------------------------------------------------- key resolution

  const TooShortMessage := "At least the first three characters of the key must be provided to perform a partial match."
  const NoMatchMessage := "No partial match found."
  const NoExpiryMessage := "This key does not have an expiry date."
  const Ellipsis := "..."

  /** PHP `substr($s, -3)`: the last three characters, or all of a shorter string. */
  function LastThree(s: string): (r: string)
    ensures |r| == if |s| < 3 then |s| else 3
    ensures r == s[|s| - |r|..]
  {
    if |s| < 3 then s else s[|s| - 3..]
  }

  /** An argument asking for a partial match. */
  predicate IsPartial(arg: string) {
    LastThree(arg) == Ellipsis
  }

  /** The argument with the trailing "..." removed. */
  function Stem(arg: string): (stem: string)
    requires IsPartial(arg)
    ensures stem + Ellipsis == arg
  {
    arg[..|arg| - 3]
  }

  /** The rows whose key starts with `stem`, in table order. */
  function PrefixMatches(rows: seq<LK.KeyRow>, stem: string): (r: seq<LK.KeyRow>)
    ensures forall x :: x in r <==> x in rows && stem <= x.lkey
    ensures |r| <= |rows|
  {
    if rows == [] then []
    else
      var rest := PrefixMatches(rows[1..], stem);
      assert forall x :: x in rows <==> x == rows[0] || x in rows[1..];
      if stem <= rows[0].lkey then [rows[0]] + rest else rest
  }

  /** The exact lookup: the first row holding this key. */
  function Lookup(rows: seq<LK.KeyRow>, lkey: string): (r: Option<LK.KeyRow>)
    ensures r.Some? ==> r.value in rows && r.value.lkey == lkey
    ensures r.None? <==> forall x :: x in rows ==> x.lkey != lkey
  {
    if rows == [] then None
    else if rows[0].lkey == lkey then Some(rows[0])
    else
      assert forall x :: x in rows <==> x == rows[0] || x in rows[1..];
      Lookup(rows[1..], lkey)
  }

  /** What the resolution of a key argument gives. */
  datatype Resolution = Resolved(row: LK.KeyRow) | TooShort | NoMatch | Multiple(matches: seq<LK.KeyRow>) | NotFound

  /**
   * The resolution block shared by `get`, `extend`, `renew`, `expire` and
   * `disable`.
   */
  function Resolve(arg: string, rows: seq<LK.KeyRow>): (r: Resolution)
    ensures !IsPartial(arg) ==> (r.Resolved? <==> exists x :: x in rows && x.lkey == arg)
    ensures !IsPartial(arg) ==> r.Resolved? || r.NotFound?
    ensures r.Resolved? && !IsPartial(arg) ==> r.row.lkey == arg
    ensures IsPartial(arg) ==> (r.TooShort? <==> |Stem(arg)| < 3)
    ensures IsPartial(arg) && |Stem(arg)| >= 3 ==>
              (r.NoMatch? <==> forall x :: x in rows ==> !(Stem(arg) <= x.lkey))
    ensures r.Resolved? ==> r.row in rows
    ensures r.Resolved? && IsPartial(arg) ==>
              Stem(arg) <= r.row.lkey && |Stem(arg)| >= 3 &&
              forall x :: x in rows && Stem(arg) <= x.lkey ==> x == r.row
    ensures r.Multiple? ==>
              IsPartial(arg) && |r.matches| >= 2 && forall x :: x in r.matches ==> x in rows && Stem(arg) <= x.lkey
  {
    if IsPartial(arg) then
      var stem := Stem(arg);
      if |stem| < 3 then TooShort
      else
        var matches := PrefixMatches(rows, stem);
        if |matches| == 0 then
          assert forall x :: x in rows ==> !(stem <= x.lkey);
          NoMatch
        else if |matches| > 1 then
          assert matches[0] in matches;
          Multiple(matches)
        else
          assert matches[0] in matches;
          assert forall x :: x in matches ==> x == matches[0];
          Resolved(matches[0])
    else
      match Lookup(rows, arg)
      case Some(x) => Resolved(x)
      case None => NotFound
  }

  /** "abc..." asks for a partial match with stem "abc"; "abcd-1234" does not. */
  lemma PartialExamples()
    ensures IsPartial("abc...") && Stem("abc...") == "abc"
    ensures IsPartial("ab...") && |Stem("ab...")| < 3
    ensures !IsPartial("abcd-1234")
  {
    assert LastThree("abcd-1234") == "234";
  }

  // ------------------------------------------------------------- commands

  datatype Command =
    | Get
    | Extend(interval: LK.Duration)
    | Renew(transactionArg: int, renewInterval: LK.Duration)
    | Expire(when: string)
    | Disable

  /** What a command prints and the key's state after it. */
  datatype CliOutcome =
    | Failure(message: string)
    | Missing
    | Listing(matches: seq<LK.KeyRow>)
    | Shown(row: LK.KeyRow)
    | Updated(state: LK.KeyState)
    | Fatal

  /** The qualities of the site a command runs against. */
  datatype Site = Site(transactions: map<int, LK.Transaction>, parseDate: string -> Result<int, string>)

  /** How a failed resolution is reported; every command reports it the same way. */
  function ResolutionFailure(r: Resolution): (out: CliOutcome)
    requires !r.Resolved?
    ensures r.TooShort? ==> out == Failure(TooShortMessage)
    ensures r.NoMatch? ==> out == Failure(NoMatchMessage)
    ensures r.Multiple? ==> out == Listing(r.matches)
    ensures r.NotFound? ==> out == Missing
  {
    match r
    case TooShort => Failure(TooShortMessage)
    case NoMatch => Failure(NoMatchMessage)
    case Multiple(ms) => Listing(ms)
    case NotFound => Missing
  }

  /**
   * `renew`'s message for an unknown transaction. `$transaction` has
   * already been overwritten with `false` when the message is made, so it
   * always reads ID 0.
   */
  const InvalidTransactionMessage := "Invalid transaction with ID 0"

  /** The intended effect of `expire`: the key is expired as of `when`. */
  function ExpiredAt(k: LK.KeyState, when: int): (r: LK.KeyState)
    ensures r.status == LK.Expired && r.expires == Some(when) && r.max == k.max
  {
    LK.KeyState(LK.Expired, k.max, Some(when))
  }

  /** A command run on a resolved key. */
  function RunOn(cmd: Command, row: LK.KeyRow, site: Site): (out: CliOutcome)
    ensures cmd.Get? ==> out == Shown(row)
    ensures cmd.Extend? ==> (out == Failure(NoExpiryMessage) <==> row.expires.None?)
    ensures cmd.Extend? && row.expires.Some? ==>
              out == Updated(LK.StateOf(row).(expires := LK.ExtendedExpiry(row.expires, cmd.interval)))
    ensures cmd.Renew? && cmd.transactionArg != 0 && cmd.transactionArg !in site.transactions ==>
              out == Failure(InvalidTransactionMessage)
    ensures cmd.Renew? && row.expires.None? ==> out.Failure?
    ensures cmd.Renew? && (cmd.transactionArg == 0 || cmd.transactionArg in site.transactions) ==>
              var txn := if cmd.transactionArg != 0 then Some(site.transactions[cmd.transactionArg]) else None;
              (row.expires.None? ==> out == Failure(LK.CannotRenew)) &&
              (row.expires.Some? ==>
                 out == Updated(LK.RenewSpec(LK.StateOf(row), row.lkey, txn, cmd.renewInterval).value.0))
    ensures cmd.Disable? ==> out == Updated(LK.StateOf(row).(status := LK.Disabled))
    ensures cmd.Expire? ==> (out.Failure? <==> site.parseDate(cmd.when).Err?)
    ensures cmd.Expire? && site.parseDate(cmd.when).Ok? ==>
              out == Updated(ExpiredAt(LK.StateOf(row), site.parseDate(cmd.when).value))
    ensures out != Fatal && out != Missing
  {
    var k := LK.StateOf(row);
    match cmd
    case Get => Shown(row)
    case Extend(interval) =>
      var e := LK.ExtendedExpiry(row.expires, interval);
      if e.None? then Failure(NoExpiryMessage) else Updated(k.(expires := e))
    case Renew(t, interval) =>
      if t != 0 && t !in site.transactions then Failure(InvalidTransactionMessage)
      else
        var txn := if t != 0 then Some(site.transactions[t]) else None;
        (match LK.RenewSpec(k, row.lkey, txn, interval)
         case Err(m) => Failure(m)
         case Ok((s, _)) => Updated(s))
    case Expire(when) =>
      (match site.parseDate(when)
       case Err(m) => Failure(m)
       case Ok(d) => Updated(ExpiredAt(k, d)))
    case Disable =>
      var s := LK.SetStatusSpec(k, LK.Disabled);
      LK.StatusesAreThree(LK.Disabled);
      Updated(s.value)
  }

  /** A command with its key argument: resolution first, then the command. */
  function Run(cmd: Command, arg: string, rows: seq<LK.KeyRow>, site: Site): (out: CliOutcome)
    ensures Resolve(arg, rows).Resolved? ==> out == RunOn(cmd, Resolve(arg, rows).row, site)
    ensures !Resolve(arg, rows).Resolved? ==> out == ResolutionFailure(Resolve(arg, rows))
  {
    var r := Resolve(arg, rows);
    if r.Resolved? then RunOn(cmd, r.row, site) else ResolutionFailure(r)
  }

  /** When the argument does not resolve, every command stops with the same report and touches no key. */
  lemma ResolutionGuardsEveryCommand(c1: Command, c2: Command, arg: string, rows: seq<LK.KeyRow>, site: Site)
    requires !Resolve(arg, rows).Resolved?
    ensures Run(c1, arg, rows, site) == Run(c2, arg, rows, site)
    ensures !Run(c1, arg, rows, site).Updated?
  {
  }

  /** A prefix matching several keys lists them and changes nothing; one matching exactly one acts on it. */
  lemma {:induction false} PrefixDecides(cmd: Command, stem: string, rows: seq<LK.KeyRow>, site: Site)
    requires |stem| >= 3
    ensures var arg := stem + Ellipsis;
            var ms := PrefixMatches(rows, stem);
            (|ms| >= 2 ==> Run(cmd, arg, rows, site) == Listing(ms)) &&
            (|ms| == 1 ==> Run(cmd, arg, rows, site) == RunOn(cmd, ms[0], site)) &&
            (|ms| == 0 ==> Run(cmd, arg, rows, site) == Failure(NoMatchMessage))
  {
    var arg := stem + Ellipsis;
    assert LastThree(arg) == Ellipsis;
    assert Stem(arg) == stem;
  }

  /** `extend` on an expiring key moves the expiry by one interval ahead. */
  lemma ExtendAdvances(row: LK.KeyRow, interval: LK.Duration, site: Site)
    requires row.expires.Some?
    ensures RunOn(Extend(interval), row, site).Updated?
    ensures RunOn(Extend(interval), row, site).state.expires.value == row.expires.value + interval
  {
  }

  /** `expire` as written: once the key resolves and the date parses, it calls a method `Key` does not have. */
  function RunOnAsWritten(cmd: Command, row: LK.KeyRow, site: Site): (out: CliOutcome)
    ensures cmd.Expire? && site.parseDate(cmd.when).Ok? ==> out == Fatal
    ensures !cmd.Expire? ==> out == RunOn(cmd, row, site)
  {
    match cmd
    case Expire(when) =>
      if site.parseDate(when).Err? then Failure(site.parseDate(when).error) else Fatal
    case _ => RunOn(cmd, row, site)
  }

  /** `wp itelic key expire abcd-1234` on an existing key with the default date ends in a fatal error. */
  lemma ExpireFatalAsWritten(row: LK.KeyRow, now: int)
    ensures var site := Site(map[], s => Ok(now));
            RunOnAsWritten(Expire("now"), row, site) == Fatal &&
            RunOn(Expire("now"), row, site) == Updated(ExpiredAt(LK.StateOf(row), now))
  {
  }

  // -------------------------------------------------------------- create

  /** What the command knows of a product. */
  datatype ProductInfo = ProductInfo(id: int, hasLicensing: bool, basePrice: string)

  /** The arguments `create` hands to the key factory. */
  datatype CreateRequest = CreateRequest(product: int, customer: int, key: string, status: string,
                                         limit: Option<string>, expires: Option<string>, paid: string)

  const InvalidProduct := "Invalid product."
  const InvalidCustomer := "Invalid customer."

  function Flag(flags: map<string, string>, name: string): Option<string> {
    if name in flags then Some(flags[name]) else None
  }

  /**
   * `create`: the product must exist with licensing enabled, then the
   * customer must exist; the status defaults to active, the amount paid to
   * the product's base price, and a limit or expiry is passed on only when
   * given.
   */
  function CreateArgs(product: Option<ProductInfo>, customer: Option<int>, key: string,
                      flags: map<string, string>): (r: Result<CreateRequest, string>)
    ensures (product.None? || !product.value.hasLicensing) ==> r == Err(InvalidProduct)
    ensures product.Some? && product.value.hasLicensing && customer.None? ==> r == Err(InvalidCustomer)
    ensures r.Ok? <==> product.Some? && product.value.hasLicensing && customer.Some?
    ensures r.Ok? ==> r.value.product == product.value.id && r.value.customer == customer.value && r.value.key == key
    ensures r.Ok? ==> r.value.status == (if "status" in flags then flags["status"] else LK.Active)
    ensures r.Ok? ==> r.value.paid == (if "amount-paid" in flags then flags["amount-paid"] else product.value.basePrice)
    ensures r.Ok? ==> (r.value.limit.Some? <==> "limit" in flags) && (r.value.expires.Some? <==> "expires" in flags)
  {
    if product.None? || !product.value.hasLicensing then Err(InvalidProduct)
    else if customer.None? then Err(InvalidCustomer)
    else
      Ok(CreateRequest(product.value.id, customer.value, key, Flag(flags, "status").GetOr(LK.Active),
                       Flag(flags, "limit"), Flag(flags, "expires"),
                       Flag(flags, "amount-paid").GetOr(product.value.basePrice)))
  }

  /** With no flags the key is active, unlimited by the command, non-expiring and paid at the base price. */
  lemma CreateDefaults(product: ProductInfo, customer: int, key: string)
    requires product.hasLicensing
    ensures var r := CreateArgs(Some(product), Some(customer), key, map[]);
            r.Ok? && r.value.status == LK.Active && r.value.paid == product.basePrice &&
            r.value.limit.None? && r.value.expires.None?
  {
  }

  // ---------------------------------------------------- release for a date

  /** The release types a track may receive. */
  function ReleaseTypesForTrack(track: string): (types: seq<string>)
    ensures forall t :: t in types ==> R.IsType(t)
    ensures R.TypeRestricted !in types
    ensures R.TypeMajor in types && R.TypeMinor in types && R.TypeSecurity in types
    ensures R.TypePreRelease in types <==> track == P.PreReleaseTrack
  {
    R.TypesExactly(R.TypeMajor);
    R.TypesExactly(R.TypeMinor);
    R.TypesExactly(R.TypeSecurity);
    R.TypesExactly(R.TypePreRelease);
    var stable := [R.TypeMajor, R.TypeMinor, R.TypeSecurity];
    assert R.TypePreRelease !in stable by {
      assert R.TypePreRelease[0] == 'p';
    }
    assert R.TypeRestricted !in stable + [R.TypePreRelease] by {
      assert R.TypeRestricted[0] == 'r';
    }
    if track == P.PreReleaseTrack then stable + [R.TypePreRelease] else stable
  }

  /** A release published strictly before `date` with one of the track's types. */
  predicate AvailableAt(x: R.Fields, date: int, types: seq<string>) {
    x.startDate.Some? && x.startDate.value < date && x.rtype in types
  }

  function AvailableRows(rs: seq<R.Fields>, date: int, types: seq<string>): (r: seq<R.Fields>)
    ensures forall x :: x in r <==> x in rs && AvailableAt(x, date, types)
  {
    if rs == [] then []
    else
      var rest := AvailableRows(rs[1..], date, types);
      assert forall x :: x in rs <==> x == rs[0] || x in rs[1..];
      if AvailableAt(rs[0], date, types) then [rs[0]] + rest else rest
  }

  /**
   * `get_release_for_date`: the newest release of the key's product
   * available at `date` for the track, or none.
   */
  function ReleaseForDate(rs: seq<R.Fields>, product: int, date: int, track: string): (r: Option<R.Fields>)
    ensures r.None? <==>
              forall x :: x in rs ==> !(x.product == product && AvailableAt(x, date, ReleaseTypesForTrack(track)))
    ensures r.Some? ==> r.value in rs && r.value.product == product &&
                        AvailableAt(r.value, date, ReleaseTypesForTrack(track))
    ensures r.Some? ==> forall y :: y in rs && y.product == product && AvailableAt(y, date, ReleaseTypesForTrack(track)) ==>
                          y.startDate.value <= r.value.startDate.value
  {
    var types := ReleaseTypesForTrack(track);
    var available := AvailableRows(rs, date, types);
    var newest := P.Query(available, product, None, 1);
    P.FirstIsNewest(available, product, None, 1);
    if newest == [] then None else Some(newest[0])
  }

  // ------------------------------------------------ generated activations

  /**
   * The guard and base limit of `create_activations_for_key`: expired and
   * disabled keys get none, and an empty limit counts as 20.
   */
  function GenerationLimit(status: string, max: int): (r: Option<int>)
    ensures r.None? <==> status == LK.Expired || status == LK.Disabled
    ensures r.Some? ==> r.value != 0
    ensures r.Some? && max != 0 ==> r.value == max
    ensures r.Some? && max == 0 ==> r.value == 20
  {
    if status == LK.Expired || status == LK.Disabled then None
    else if max == 0 then Some(20)
    else Some(max)
  }
}
