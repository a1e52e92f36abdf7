/**
 * A license key record: its status, its activation limit and its expiry,
 * the checks run when it is loaded, and the operations that change it and
 * write the change back to the keys store. The keys, activations and
 * renewals stores are held in memory; dates are integers and the billing
 * interval of the product is a positive duration handed in by the caller.
 */
module LicenseKey {
  import opened Common
  import AT = ActivationsTable

  const Active := "active"
  const Expired := "expired"
  const Disabled := "disabled"

  /** One recurring-payment interval, in the same unit as dates. */
  type Duration = d: int | d > 0 witness 1

  /** The status slugs and their labels, in the order the source lists them. */
  function Statuses(): seq<(string, string)> {
    [(Active, "Active"), (Disabled, "Disabled"), (Expired, "Expired")]
  }

  /** `array_key_exists($status, get_statuses())`. */
  predicate IsStatus(s: string) {
    exists i :: 0 <= i < |Statuses()| && Statuses()[i].0 == s
  }

  /** The known statuses are exactly active, disabled and expired. */
  lemma StatusesAreThree(s: string)
    ensures IsStatus(s) <==> s == Active || s == Disabled || s == Expired
  {
    if s == Active { assert Statuses()[0].0 == s; }
    if s == Disabled { assert Statuses()[1].0 == s; }
    if s == Expired { assert Statuses()[2].0 == s; }
  }

  function LabelIn(table: seq<(string, string)>, status: string): (name: string)
    ensures (forall i :: 0 <= i < |table| ==> table[i].0 != status) ==> name == "Unknown"
    ensures forall i :: (0 <= i < |table| && table[i].0 == status &&
                         (forall j :: 0 <= j < i ==> table[j].0 != status)) ==> name == table[i].1
  {
    if table == [] then "Unknown"
    else if table[0].0 == status then table[0].1
    else LabelIn(table[1..], status)
  }

  /** `get_status(true)`: the label of a known status, "Unknown" otherwise. */
  function StatusLabel(status: string): (name: string)
    ensures status == Active ==> name == "Active"
    ensures status == Disabled ==> name == "Disabled"
    ensures status == Expired ==> name == "Expired"
    ensures !IsStatus(status) ==> name == "Unknown"
  {
    LabelIn(Statuses(), status)
  }

  /** A purchase, as far as the key needs it from the store. */
  datatype Transaction = Transaction(id: int, postDate: int, clearedForDelivery: bool, subscriberStatus: string)

  /** The records the key refers to that exist in the store. */
  datatype Exchange = Exchange(transactions: map<int, Transaction>, products: set<int>, customers: set<int>)

  /** A row of the keys store. */
  datatype KeyRow = KeyRow(lkey: string, transactionId: int, productId: int, customerId: int,
                           status: string, max: int, expires: Option<int>)

  /** A row of the renewals store. */
  datatype RenewalRow = RenewalRow(lkey: string, transactionId: Option<int>, expired: int, renewalDate: Option<int>)

  /** The three stores a key touches. */
  datatype Db = Db(keys: map<string, KeyRow>, activations: AT.Table, renewals: seq<RenewalRow>)

  /**
   * `init`: the transaction, the product and the customer must all resolve,
   * checked in that order; the first that does not names the error.
   */
  function Init(row: KeyRow, ex: Exchange): (r: Result<Transaction, string>)
    ensures r.Ok? <==> row.transactionId in ex.transactions && row.productId in ex.products && row.customerId in ex.customers
    ensures r.Ok? ==> r.value == ex.transactions[row.transactionId]
    ensures row.transactionId !in ex.transactions ==> r == Err("Invalid transaction")
    ensures row.transactionId in ex.transactions && row.productId !in ex.products ==> r == Err("Invalid product")
    ensures row.transactionId in ex.transactions && row.productId in ex.products && row.customerId !in ex.customers ==>
              r == Err("Invalid customer")
  {
    if row.transactionId !in ex.transactions then Err("Invalid transaction")
    else if row.productId !in ex.products then Err("Invalid product")
    else if row.customerId !in ex.customers then Err("Invalid customer")
    else Ok(ex.transactions[row.transactionId])
  }

  /** The mutable part of a key. */
  datatype KeyState = KeyState(status: string, max: int, expires: Option<int>)

  function StateOf(row: KeyRow): KeyState {
    KeyState(row.status, row.max, row.expires)
  }

  /** `set_status`: any status outside the three is refused and nothing changes. */
  function SetStatusSpec(k: KeyState, s: string): (r: Result<KeyState, string>)
    ensures r.Ok? <==> s == Active || s == Disabled || s == Expired
    ensures r.Ok? ==> r.value.status == s && r.value.max == k.max && r.value.expires == k.expires
    ensures r.Err? ==> r.error == "Invalid value for key status."
  {
    StatusesAreThree(s);
    if IsStatus(s) then Ok(k.(status := s)) else Err("Invalid value for key status.")
  }

  /** `absint`. */
  function AbsInt(m: int): (r: nat)
    ensures r == m || r == -m
  {
    if m < 0 then -m else m
  }

  /** `extend` on the expiry: none stays none, otherwise one interval later. */
  function ExtendedExpiry(e: Option<int>, interval: Duration): (r: Option<int>)
    ensures r.None? <==> e.None?
    ensures e.Some? ==> r.value > e.value
  {
    match e
    case None => None
    case Some(d) => Some(d + interval)
  }

  /** The expiry after `n` extensions. */
  function ExtendN(e: Option<int>, interval: Duration, n: nat): Option<int> {
    if n == 0 then e else ExtendedExpiry(ExtendN(e, interval, n - 1), interval)
  }

  /** Extensions compose: `n` of them move the expiry by exactly `n` intervals. */
  lemma {:induction false} ExtendNAdvances(e: Option<int>, interval: Duration, n: nat)
    ensures e.None? ==> ExtendN(e, interval, n).None?
    ensures e.Some? ==> ExtendN(e, interval, n) == Some(e.value + n * interval)
  {
    if n > 0 {
      ExtendNAdvances(e, interval, n - 1);
    }
  }

  const CannotRenew := "You can't renew a license key that doesn't expire."

  /**
   * `renew`: a key without expiry is refused before a renewal is written.
   * Otherwise a renewal records the expiry it replaces and the transaction's
   * date (none without a transaction), and the key is extended once.
   */
  function RenewSpec(k: KeyState, lkey: string, txn: Option<Transaction>, interval: Duration): (r: Result<(KeyState, RenewalRow), string>)
    ensures r.Err? <==> k.expires.None?
    ensures r.Err? ==> r.error == CannotRenew
    ensures r.Ok? ==> r.value.0 == k.(expires := Some(k.expires.value + interval))
    ensures r.Ok? ==> r.value.1.lkey == lkey && r.value.1.expired == k.expires.value
    ensures r.Ok? ==> (txn.None? <==> r.value.1.renewalDate.None?)
    ensures r.Ok? && txn.Some? ==> r.value.1.renewalDate == Some(txn.value.postDate) && r.value.1.transactionId == Some(txn.value.id)
  {
    if k.expires.None? then Err(CannotRenew)
    else
      var date := if txn.None? then None else Some(txn.value.postDate);
      var txnId := if txn.None? then None else Some(txn.value.id);
      Ok((k.(expires := ExtendedExpiry(k.expires, interval)), RenewalRow(lkey, txnId, k.expires.value, date)))
  }

  /** Renewing once per transaction, stopping at the first refusal. */
  function RenewMany(k: KeyState, lkey: string, txns: seq<Option<Transaction>>, interval: Duration): Result<(KeyState, seq<RenewalRow>), string>
    decreases |txns|
  {
    if txns == [] then Ok((k, []))
    else
      match RenewSpec(k, lkey, txns[0], interval)
      case Err(e) => Err(e)
      case Ok((k1, row)) =>
        match RenewMany(k1, lkey, txns[1..], interval)
        case Err(e) => Err(e)
        case Ok((k2, rows)) => Ok((k2, [row] + rows))
  }

  /**
   * Renewals compose: on an expiring key `n` renewals all succeed, write `n`
   * renewal rows, the i-th recording the expiry moved by `i` intervals, and
   * leave the key `n` intervals later with its status and limit untouched.
   */
  lemma {:induction false} RenewManyAdvances(k: KeyState, lkey: string, txns: seq<Option<Transaction>>, interval: Duration)
    requires k.expires.Some?
    ensures RenewMany(k, lkey, txns, interval).Ok?
    ensures var (k2, rows) := RenewMany(k, lkey, txns, interval).value;
            k2 == k.(expires := Some(k.expires.value + |txns| * interval)) &&
            |rows| == |txns| &&
            forall i :: 0 <= i < |rows| ==> rows[i].lkey == lkey && rows[i].expired == k.expires.value + i * interval
    decreases |txns|
  {
    if txns != [] {
      var e := k.expires.value;
      var k1 := k.(expires := Some(e + interval));
      RenewManyAdvances(k1, lkey, txns[1..], interval);
      var tail := RenewMany(k1, lkey, txns[1..], interval).value;
      var row := RenewSpec(k, lkey, txns[0], interval).value.1;
      assert RenewMany(k, lkey, txns, interval) == Ok((tail.0, [row] + tail.1));
      OneMoreInterval(e, interval, |txns| - 1);
      var all := [row] + tail.1;
      forall i | 0 <= i < |all|
        ensures all[i].lkey == lkey && all[i].expired == e + i * interval
      {
        if i > 0 {
          assert all[i] == tail.1[i - 1];
          OneMoreInterval(e, interval, i - 1);
        }
      }
    }
  }

  lemma OneMoreInterval(e: int, d: int, n: int)
    ensures e + d + n * d == e + (n + 1) * d
  {
  }

  /** A column written by `update_value`. */
  datatype Column = StatusCol(status: string) | MaxCol(max: int) | ExpiresCol(expires: Option<int>)

  function WithColumn(row: KeyRow, c: Column): KeyRow {
    match c
    case StatusCol(s) => row.(status := s)
    case MaxCol(m) => row.(max := m)
    case ExpiresCol(e) => row.(expires := e)
  }

  /** `update_value`: one column of this key's row; an absent key updates nothing. */
  function UpdateValue(keys: map<string, KeyRow>, lkey: string, c: Column): (r: map<string, KeyRow>)
    ensures r.Keys == keys.Keys
    ensures forall k :: k in keys && k != lkey ==> r[k] == keys[k]
    ensures lkey in keys ==> r[lkey] == WithColumn(keys[lkey], c)
  {
    UpdateEntry(keys, lkey, row => WithColumn(row, c))
  }

  function RenewalsWithout(rows: seq<RenewalRow>, lkey: string): (r: seq<RenewalRow>)
    ensures forall x :: x in r ==> x in rows && x.lkey != lkey
    ensures forall x :: x in rows && x.lkey != lkey ==> x in r
  {
    if rows == [] then []
    else
      var rest := RenewalsWithout(rows[1..], lkey);
      if rows[0].lkey == lkey then rest else [rows[0]] + rest
  }

  /** `delete`: the key row, and every activation and renewal of that key. */
  function DeleteCascade(db: Db, lkey: string): (r: Db)
    ensures r.keys == db.keys - {lkey}
    ensures r.activations == AT.DeleteKey(db.activations, lkey)
    ensures r.renewals == RenewalsWithout(db.renewals, lkey)
  {
    Db(db.keys - {lkey}, AT.DeleteKey(db.activations, lkey), RenewalsWithout(db.renewals, lkey))
  }

  /**
   * After a delete nothing of the key is left, and every other key keeps its
   * row, its activations, its active count and its renewals.
   */
  lemma DeleteCascadeIsolates(db: Db, lkey: string, other: string)
    requires other != lkey
    ensures var r := DeleteCascade(db, lkey);
            lkey !in r.keys &&
            (other in db.keys ==> other in r.keys && r.keys[other] == db.keys[other]) &&
            AT.ActiveCount(r.activations.rows, lkey) == 0 &&
            AT.ActiveCount(r.activations.rows, other) == AT.ActiveCount(db.activations.rows, other) &&
            (forall x :: x in db.activations.rows && x.lkey == other ==> x in r.activations.rows) &&
            (forall x :: x in db.renewals && x.lkey == other ==> x in r.renewals) &&
            (forall x :: x in r.renewals ==> x.lkey != lkey)
  {
    AT.DeleteKeyCounts(db.activations.rows, lkey, other);
  }

  /** A delete keeps the activation store's keys valid. */
  lemma DeleteCascadeKeepsTable(db: Db, lkey: string)
    requires AT.Valid(db.activations)
    ensures AT.Valid(DeleteCascade(db, lkey).activations)
  {
    AT.DeleteKeyKeepsValid(db.activations.rows, db.activations.nextId, lkey);
  }

  /** The row `create` inserts: a status that PHP considers empty becomes active. */
  function NewKeyRow(lkey: string, transactionId: int, productId: int, customerId: int,
                     max: int, expires: Option<int>, status: string): (r: KeyRow)
    ensures PhpEmpty(status) ==> r.status == Active
    ensures !PhpEmpty(status) ==> r.status == status
    ensures r.lkey == lkey && r.max == max && r.expires == expires
    ensures r.transactionId == transactionId && r.productId == productId && r.customerId == customerId
  {
    KeyRow(lkey, transactionId, productId, customerId, if PhpEmpty(status) then Active else status, max, expires)
  }

  /** The stores, shared by every key object loaded from them. */
  class Store {
    var db: Db

    constructor ()
      ensures db == Db(map[], AT.Empty(), [])
    {
      db := Db(map[], AT.Empty(), []);
    }
  }

  /** What `with_key` gives: no row, a row whose references do not resolve, or a key. */
  datatype Loaded = NoSuchKey | Invalid(message: string) | Found(k: Key)

  /** A loaded license key. Status, limit and expiry are written back on every change. */
  class Key {
    const key: string
    const transaction: Transaction
    const productId: int
    const customerId: int
    var status: string
    var max: int
    var expires: Option<int>
    const store: Store

    function State(): KeyState
      reads this
    {
      KeyState(status, max, expires)
    }

    constructor (row: KeyRow, transaction: Transaction, store: Store)
      ensures key == row.lkey && this.transaction == transaction && this.store == store
      ensures productId == row.productId && customerId == row.customerId
      ensures State() == StateOf(row)
    {
      key := row.lkey;
      this.transaction := transaction;
      productId := row.productId;
      customerId := row.customerId;
      status := row.status;
      max := row.max;
      expires := row.expires;
      this.store := store;
    }

    /** `get_active_count`: the number of this key's activations whose status is active. */
    function ActiveCount(): (n: nat)
      reads this, store
      ensures n == |AT.ActivePositions(store.db.activations.rows, key)|
    {
      AT.ActiveCountIsMatchingRows(store.db.activations.rows, key);
      AT.ActiveCount(store.db.activations.rows, key)
    }

    /**
     * `is_valid`: fewer active activations than the limit, a transaction
     * cleared for delivery and an active subscription. A limit of zero is not
     * "unlimited": it makes the key invalid.
     */
    function IsValid(): (r: bool)
      reads this, store
      ensures r <==> ActiveCount() < max && transaction.clearedForDelivery && transaction.subscriberStatus == Active
      ensures max <= 0 ==> !r
    {
      if ActiveCount() >= max then false
      else if !transaction.clearedForDelivery then false
      else if transaction.subscriberStatus != Active then false
      else true
    }

    /** `set_status`. */
    method SetStatus(s: string) returns (r: Result<(), string>)
      modifies this, store
      ensures match SetStatusSpec(old(State()), s)
              case Ok(k) => r.Ok? && State() == k && store.db == old(store.db).(keys := UpdateValue(old(store.db.keys), key, StatusCol(s)))
              case Err(e) => r == Err(e) && State() == old(State()) && store.db == old(store.db)
    {
      StatusesAreThree(s);
      if !IsStatus(s) {
        return Err("Invalid value for key status.");
      }
      status := s;
      store.db := store.db.(keys := UpdateValue(store.db.keys, key, StatusCol(s)));
      r := Ok(());
    }

    /** `set_expires`: none means the key never expires. */
    method SetExpires(e: Option<int>)
      modifies this, store
      ensures State() == old(State()).(expires := e)
      ensures store.db == old(store.db).(keys := UpdateValue(old(store.db.keys), key, ExpiresCol(e)))
    {
      expires := e;
      store.db := store.db.(keys := UpdateValue(store.db.keys, key, ExpiresCol(e)));
    }

    /** `set_max`: the limit stored is never negative. */
    method SetMax(m: int)
      modifies this, store
      ensures State() == old(State()).(max := AbsInt(m)) && max >= 0
      ensures store.db == old(store.db).(keys := UpdateValue(old(store.db.keys), key, MaxCol(AbsInt(m))))
    {
      max := AbsInt(m);
      store.db := store.db.(keys := UpdateValue(store.db.keys, key, MaxCol(max)));
    }

    /** `extend`: a key that never expires is left alone; otherwise one interval is added and written back. */
    method Extend(interval: Duration) returns (r: Option<int>)
      modifies this, store
      ensures r == ExtendedExpiry(old(expires), interval) && State() == old(State()).(expires := r)
      ensures old(expires).None? ==> store.db == old(store.db)
      ensures old(expires).Some? ==> store.db == old(store.db).(keys := UpdateValue(old(store.db.keys), key, ExpiresCol(r)))
    {
      if expires.None? {
        return None;
      }
      SetExpires(Some(expires.value + interval));
      r := expires;
    }

    /** `renew`. */
    method Renew(txn: Option<Transaction>, interval: Duration) returns (r: Result<RenewalRow, string>)
      modifies this, store
      ensures match RenewSpec(old(State()), key, txn, interval)
              case Err(e) => r == Err(e) && State() == old(State()) && store.db == old(store.db)
              case Ok((k, row)) =>
                r == Ok(row) && State() == k &&
                store.db == old(store.db).(keys := UpdateValue(old(store.db.keys), key, ExpiresCol(k.expires)),
                                           renewals := old(store.db.renewals) + [row])
    {
      if expires.None? {
        return Err(CannotRenew);
      }
      var date := if txn.None? then None else Some(txn.value.postDate);
      var txnId := if txn.None? then None else Some(txn.value.id);
      var row := RenewalRow(key, txnId, expires.value, date);
      store.db := store.db.(renewals := store.db.renewals + [row]);
      var _ := Extend(interval);
      r := Ok(row);
    }

    /** `delete`. */
    method Delete()
      modifies store
      ensures store.db == DeleteCascade(old(store.db), key)
    {
      store.db := DeleteCascade(store.db, key);
    }
  }

  /** `with_key`: load the row and run the reference checks. */
  method WithKey(store: Store, lkey: string, ex: Exchange) returns (r: Loaded)
    ensures lkey !in store.db.keys ==> r == NoSuchKey
    ensures lkey in store.db.keys ==> match Init(store.db.keys[lkey], ex)
            case Err(e) => r == Invalid(e)
            case Ok(txn) => r.Found? && fresh(r.k) && r.k.key == store.db.keys[lkey].lkey && r.k.store == store &&
                            r.k.transaction == txn && r.k.State() == StateOf(store.db.keys[lkey])
  {
    if lkey !in store.db.keys {
      return NoSuchKey;
    }
    var row := store.db.keys[lkey];
    match Init(row, ex)
    case Err(e) => r := Invalid(e);
    case Ok(txn) =>
      var k := new Key(row, txn, store);
      r := Found(k);
  }

  /**
   * `create`: insert the row, then load it with `with_key`. The keys store is
   * addressed by the key string; inserting a key that is already present
   * leaves the store as it was.
   */
  method Create(store: Store, ex: Exchange, lkey: string, transactionId: int, productId: int, customerId: int,
                max: int, expires: Option<int>, status: string) returns (r: Loaded)
    modifies store
    ensures lkey !in old(store.db.keys) ==>
              store.db == old(store.db).(keys := old(store.db.keys)[lkey := NewKeyRow(lkey, transactionId, productId, customerId, max, expires, status)])
    ensures lkey in old(store.db.keys) ==> store.db == old(store.db)
    ensures lkey in store.db.keys
    ensures match Init(store.db.keys[lkey], ex)
            case Err(e) => r == Invalid(e)
            case Ok(txn) => r.Found? && fresh(r.k) && r.k.key == store.db.keys[lkey].lkey && r.k.store == store &&
                            r.k.transaction == txn && r.k.State() == StateOf(store.db.keys[lkey])
  {
    if lkey !in store.db.keys {
      var row := NewKeyRow(lkey, transactionId, productId, customerId, max, expires, status);
      store.db := store.db.(keys := store.db.keys[lkey := row]);
    }
    r := WithKey(store, lkey, ex);
  }
}
