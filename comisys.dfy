/** The application module's own upload handler (comisys.py:434-529): after the shared extraction
    it upserts every row of a known seller by order number and date, then sweeps the whole table
    so that only the latest-dated sales of each order number remain. Also the module's delete
    routes (comisys.py:370-397) and its seller dashboards, which always apply the Loja rates
    (comisys.py:200-272 and 286-367). */
module Comisys {
  import opened Wrappers
  import opened Seqs
  import opened Domain
  import opened TextUtils
  import opened Extractor
  import Dashboards
  import Goals
  import Sales

  /** A row of the Sales table as this module creates it (comisys.py:62-71): the owner is
      required and there is no processed flag. */
  datatype Sale = Sale(id: nat, date: Date, amount: real, userId: nat, orderNumber: string)

  datatype Table = Table(rows: seq<Sale>, nextId: nat)

  predicate IdsOrdered(t: Table) {
    && (forall i, j :: 0 <= i < j < |t.rows| ==> t.rows[i].id < t.rows[j].id)
    && (forall i :: 0 <= i < |t.rows| ==> t.rows[i].id < t.nextId)
  }

  predicate UniqueOrders(rows: seq<Sale>) {
    forall i, j :: 0 <= i < j < |rows| ==> rows[i].orderNumber != rows[j].orderNumber
  }

  /** No two sales of one order number share a date. */
  predicate DistinctDates(rows: seq<Sale>) {
    forall i, j :: 0 <= i < j < |rows| && rows[i].orderNumber == rows[j].orderNumber ==> rows[i].date != rows[j].date
  }

  // ---- seller lookup (lines 481-491) ----

  /** `remove_accents(name.lower())`. */
  function SellerKey(u: Unicode, name: string): string {
    RemoveAccents(u, u.lower(name))
  }

  /** `SELECT id, name FROM Users WHERE role = "seller"`. */
  function Sellers(users: seq<User>): seq<User> {
    Filter(users, (x: User) => x.role == "seller")
  }

  /** One (key, id) entry per seller, in query order. */
  function SellerEntries(users: seq<User>, u: Unicode): seq<(string, nat)> {
    var sellers := Sellers(users);
    seq(|sellers|, k requires 0 <= k < |sellers| => (SellerKey(u, sellers[k].name), sellers[k].id))
  }

  /** `sellers_dict`; when two sellers share a key, the later one wins. */
  function SellerDirectory(users: seq<User>, u: Unicode): map<string, nat> {
    MapOf(SellerEntries(users, u))
  }

  // ---- one row (lines 493-511) ----

  /** A stored sale the row replaces: same order number, dated on or before the row. */
  predicate Superseded(s: Sale, rec: Record) {
    s.orderNumber == rec.orderNumber && DateLe(s.date, rec.date)
  }

  /** The sales of one order number (`SELECT id, date FROM Sales WHERE order_number = ?`). */
  function SameOrder(rows: seq<Sale>, order: string): seq<Sale> {
    Filter(rows, (s: Sale) => s.orderNumber == order)
  }

  function WithoutSuperseded(rows: seq<Sale>, rec: Record): seq<Sale> {
    Filter(rows, (s: Sale) => !Superseded(s, rec))
  }

  /** Delete the superseded sales, then insert the row. */
  function UpsertOne(t: Table, rec: Record, userId: nat): Table {
    Table(WithoutSuperseded(t.rows, rec) + [Sale(t.nextId, rec.date, rec.amount, userId, rec.orderNumber)], t.nextId + 1)
  }

  /** A row whose seller is not in the directory is skipped. */
  function Step(t: Table, rec: Record, dir: map<string, nat>, u: Unicode): Table {
    var key := SellerKey(u, rec.seller);
    if key in dir then UpsertOne(t, rec, dir[key]) else t
  }

  function Ingest(t: Table, recs: seq<Record>, dir: map<string, nat>, u: Unicode): Table {
    if recs == [] then t
    else
      var n := |recs| - 1;
      Step(Ingest(t, recs[..n], dir, u), recs[n], dir, u)
  }

  // ---- the duplicate sweep (lines 515-527) ----

  function LaterDate(a: Date, b: Date): Date {
    if DateLe(a, b) then b else a
  }

  /** `MAX(date)` over the sales of an order number; `None` when it has none. */
  function LatestDate(rows: seq<Sale>, order: string): (r: Option<Date>)
    ensures r.Some? <==> exists i :: 0 <= i < |rows| && rows[i].orderNumber == order
  {
    if rows == [] then None
    else
      var n := |rows| - 1;
      var prev := LatestDate(rows[..n], order);
      assert forall i :: 0 <= i < n ==> rows[..n][i] == rows[i];
      if rows[n].orderNumber != order then prev
      else if prev.None? then Some(rows[n].date)
      else Some(LaterDate(prev.value, rows[n].date))
  }

  /** `COUNT(*)` over the sales of an order number. */
  function CountOrder(rows: seq<Sale>, order: string): nat {
    if rows == [] then 0
    else CountOrder(rows[..|rows| - 1], order) + (if rows[|rows| - 1].orderNumber == order then 1 else 0)
  }

  /** A sale older than the latest sale of its order number. */
  predicate Stale(rows: seq<Sale>, s: Sale) {
    var m := LatestDate(rows, s.orderNumber);
    m.Some? && DateLt(s.date, m.value)
  }

  /** What the sweep leaves: the sales that carry their order number's latest date. */
  function LatestOnly(rows: seq<Sale>): seq<Sale> {
    Filter(rows, (s: Sale) => !Stale(rows, s))
  }

  /** `SELECT order_number, MAX(date) ... GROUP BY order_number HAVING COUNT(*) > 1`. */
  function DuplicateGroups(rows: seq<Sale>): set<(string, Date)> {
    set i | 0 <= i < |rows| && CountOrder(rows, rows[i].orderNumber) > 1
      :: (rows[i].orderNumber, LatestDate(rows, rows[i].orderNumber).value)
  }

  /** `DELETE FROM Sales WHERE order_number = ? AND date < ?`. */
  function DeleteOlder(rows: seq<Sale>, order: string, latest: Date): seq<Sale> {
    Filter(rows, (s: Sale) => !(s.orderNumber == order && DateLt(s.date, latest)))
  }

  /** The sweep after the groups of the order numbers in `done` were processed. */
  function SweptOrders(rows0: seq<Sale>, done: set<string>): seq<Sale> {
    Filter(rows0, (s: Sale) => !(s.orderNumber in done && Stale(rows0, s)))
  }

  /** The whole pass: extraction, row loop, sweep. */
  function LegacyUpload(t: Table, grid: Grid, users: seq<User>, u: Unicode, p: Parsers): Result<Table, ExtractError> {
    match Extraction(grid, u, p)
    case Failure(e) => Failure(e)
    case Success(recs) =>
      var ingested := Ingest(t, recs, SellerDirectory(users, u), u);
      Success(ingested.(rows := LatestOnly(ingested.rows)))
  }

  // ---- delete routes (lines 370-397) ----

  function WithoutId(rows: seq<Sale>, saleId: nat): seq<Sale> {
    Filter(rows, (s: Sale) => s.id != saleId)
  }

  function WithoutIds(rows: seq<Sale>, ids: set<nat>): seq<Sale> {
    Filter(rows, (s: Sale) => s.id !in ids)
  }

  function WithoutSeller(rows: seq<Sale>, sellerId: nat): seq<Sale> {
    Filter(rows, (s: Sale) => s.userId != sellerId)
  }

  // ---- the dashboards (lines 200-272, 286-367) ----

  /** The module's Sales rows read as the blueprint's rows: owned and processed. */
  function AsBlueprintSales(rows: seq<Sale>): seq<Sales.Sale> {
    seq(|rows|, i requires 0 <= i < |rows| =>
      Sales.Sale(rows[i].id, rows[i].date, rows[i].amount, Some(rows[i].userId), rows[i].orderNumber, true))
  }

  /** The seller view of this module's `dashboard`: the same sums and percentages as the
      blueprint, with the Loja rates applied to every seller. */
  function LegacyFigures(rows: seq<Sale>, goals: Goals.GoalState, sellerId: nat, year: int, month: int)
    : Dashboards.Figures
  {
    var sales := AsBlueprintSales(rows);
    var total := Dashboards.SellerMonthTotal(sales, sellerId, year, month);
    var company := Dashboards.CompanyMonthTotal(sales, year, month);
    var individual := Goals.IndividualGoalOf(goals.individual, sellerId);
    var general := Goals.CurrentGeneralGoal(goals.general);
    Dashboards.Figures(total, company, individual, general, Dashboards.Percentage(total, individual),
                       Dashboards.Percentage(company, general), Dashboards.PayoutFor(Dashboards.Loja, total))
  }

  // ---- properties of the seller lookup ----

  /** Only sellers are looked up: a key is in the directory exactly when some seller's name
      gives it. */
  lemma SellerDirectoryExact(users: seq<User>, u: Unicode, key: string)
    ensures key in SellerDirectory(users, u) <==>
      exists x :: x in users && x.role == "seller" && SellerKey(u, x.name) == key
  {
    var sellers := Sellers(users);
    var entries := SellerEntries(users, u);
    assert SellerDirectory(users, u) == MapOf(entries);
    MapOfLastWins(entries, key);
    if exists x :: x in users && x.role == "seller" && SellerKey(u, x.name) == key {
      var x :| x in users && x.role == "seller" && SellerKey(u, x.name) == key;
      assert x in sellers;
      var k :| 0 <= k < |sellers| && sellers[k] == x;
      assert entries[k].0 == key;
    }
    if key in SellerDirectory(users, u) {
      var k :| 0 <= k < |entries| && entries[k].0 == key;
      assert sellers[k] in sellers;
    }
  }

  /** A key maps to the id of the last seller whose name gives it. */
  lemma SellerDirectoryLastWins(users: seq<User>, u: Unicode, key: string)
    requires key in SellerDirectory(users, u)
    ensures var sellers := Sellers(users);
      exists k :: && 0 <= k < |sellers| && SellerKey(u, sellers[k].name) == key
                  && SellerDirectory(users, u)[key] == sellers[k].id
                  && forall l :: k < l < |sellers| ==> SellerKey(u, sellers[l].name) != key
  {
    var sellers := Sellers(users);
    var entries := SellerEntries(users, u);
    var dir := SellerDirectory(users, u);
    assert dir == MapOf(entries);
    MapOfLastWins(entries, key);
    var k :| && 0 <= k < |entries| && entries[k] == (key, dir[key])
             && forall l :: k < l < |entries| ==> entries[l].0 != key;
    assert SellerKey(u, sellers[k].name) == key && dir[key] == sellers[k].id;
    assert forall l :: k < l < |sellers| ==> SellerKey(u, sellers[l].name) == entries[l].0;
  }

  /** A sheet none of whose sellers is known leaves the table as it was. */
  lemma {:induction false} IngestSkipsUnknownSellers(t: Table, recs: seq<Record>, dir: map<string, nat>, u: Unicode)
    requires forall i :: 0 <= i < |recs| ==> SellerKey(u, recs[i].seller) !in dir
    ensures Ingest(t, recs, dir, u) == t
  {
    if recs != [] {
      var n := |recs| - 1;
      assert forall i :: 0 <= i < n ==> recs[..n][i] == recs[i];
      IngestSkipsUnknownSellers(t, recs[..n], dir, u);
    }
  }

  /** A row of an unknown seller causes no change, wherever it sits in the sheet. */
  lemma UnknownSellerRowIgnored(t: Table, recs: seq<Record>, rec: Record, dir: map<string, nat>, u: Unicode)
    requires SellerKey(u, rec.seller) !in dir
    ensures Ingest(t, recs + [rec], dir, u) == Ingest(t, recs, dir, u)
  {
    assert (recs + [rec])[..|recs|] == recs;
  }

  // ---- properties of one row ----

  /** A matched row deletes exactly the stored sales of its order number dated on or before it,
      keeps every other sale (the later-dated ones of its order number included), and inserts
      exactly one sale carrying the row under a fresh id. */
  lemma UpsertOneExact(t: Table, rec: Record, userId: nat)
    requires IdsOrdered(t)
    ensures var t' := UpsertOne(t, rec, userId);
      var added := Sale(t.nextId, rec.date, rec.amount, userId, rec.orderNumber);
      && (forall s :: s in t'.rows <==> (s in t.rows && !Superseded(s, rec)) || s == added)
      && added !in t.rows
      && |t'.rows| == |WithoutSuperseded(t.rows, rec)| + 1
      && t'.nextId == t.nextId + 1
  {
  }

  lemma UpsertOneKeepsIds(t: Table, rec: Record, userId: nat)
    requires IdsOrdered(t)
    ensures IdsOrdered(UpsertOne(t, rec, userId))
  {
    var kept := WithoutSuperseded(t.rows, rec);
    FilterPairwise(t.rows, (s: Sale) => !Superseded(s, rec), (a: Sale, b: Sale) => a.id < b.id);
    forall i | 0 <= i < |kept| ensures kept[i].id < t.nextId { assert kept[i] in kept; }
  }

  /** A matched row keeps the order number's dates distinct: what remains of its order number is
      dated after it. */
  lemma UpsertOneKeepsDistinctDates(t: Table, rec: Record, userId: nat)
    requires DistinctDates(t.rows)
    ensures DistinctDates(UpsertOne(t, rec, userId).rows)
  {
    var kept := WithoutSuperseded(t.rows, rec);
    FilterPairwise(t.rows, (s: Sale) => !Superseded(s, rec),
                   (a: Sale, b: Sale) => a.orderNumber == b.orderNumber ==> a.date != b.date);
    var r := UpsertOne(t, rec, userId).rows;
    forall i, j | 0 <= i < j < |r| && r[i].orderNumber == r[j].orderNumber ensures r[i].date != r[j].date {
      if j == |kept| {
        assert r[i] == kept[i] && kept[i] in kept;
      }
    }
  }

  lemma {:induction false} IngestKeepsShape(t: Table, recs: seq<Record>, dir: map<string, nat>, u: Unicode)
    ensures IdsOrdered(t) ==> IdsOrdered(Ingest(t, recs, dir, u))
    ensures DistinctDates(t.rows) ==> DistinctDates(Ingest(t, recs, dir, u).rows)
  {
    if recs != [] {
      var n := |recs| - 1;
      IngestKeepsShape(t, recs[..n], dir, u);
      var t1 := Ingest(t, recs[..n], dir, u);
      var key := SellerKey(u, recs[n].seller);
      if key in dir {
        if IdsOrdered(t) { UpsertOneKeepsIds(t1, recs[n], dir[key]); }
        if DistinctDates(t.rows) { UpsertOneKeepsDistinctDates(t1, recs[n], dir[key]); }
      }
    }
  }

  // ---- properties of the sweep ----

  /** `LatestDate` is the latest date among the sales of the order number. */
  lemma {:induction false} LatestDateIsMax(rows: seq<Sale>, order: string)
    requires LatestDate(rows, order).Some?
    ensures exists i :: 0 <= i < |rows| && rows[i].orderNumber == order && rows[i].date == LatestDate(rows, order).value
    ensures forall i :: 0 <= i < |rows| && rows[i].orderNumber == order ==> DateLe(rows[i].date, LatestDate(rows, order).value)
  {
    var n := |rows| - 1;
    var prefix := rows[..n];
    assert forall i :: 0 <= i < n ==> prefix[i] == rows[i];
    if LatestDate(prefix, order).Some? {
      LatestDateIsMax(prefix, order);
      var i :| 0 <= i < n && prefix[i].orderNumber == order && prefix[i].date == LatestDate(prefix, order).value;
      assert rows[i] == prefix[i];
    }
  }

  /** The sweep keeps exactly the sales no sale of the same order number post-dates: every sale
      left carries its order number's latest date, and no latest-dated sale is removed. */
  lemma LatestOnlyExact(rows: seq<Sale>, s: Sale)
    ensures s in LatestOnly(rows) <==>
      s in rows && forall i :: 0 <= i < |rows| && rows[i].orderNumber == s.orderNumber ==> DateLe(rows[i].date, s.date)
  {
    if s in rows {
      var k :| 0 <= k < |rows| && rows[k] == s;
      LatestDateIsMax(rows, s.orderNumber);
    }
  }

  /** An order number with a single sale is left alone by the sweep. */
  lemma SingleSaleUntouched(rows: seq<Sale>, s: Sale)
    requires s in rows && CountOrder(rows, s.orderNumber) == 1
    ensures s in LatestOnly(rows)
  {
    SoleSaleNotStale(rows, s);
  }

  lemma SoleSaleNotStale(rows: seq<Sale>, s: Sale)
    requires s in rows && CountOrder(rows, s.orderNumber) <= 1
    ensures !Stale(rows, s)
  {
    var k :| 0 <= k < |rows| && rows[k] == s;
    LatestDateIsMax(rows, s.orderNumber);
    var i :| 0 <= i < |rows| && rows[i].orderNumber == s.orderNumber && rows[i].date == LatestDate(rows, s.orderNumber).value;
    CountOrderTwo(rows, s.orderNumber, i, k);
  }

  /** Two different positions of one order number make it count at least twice. */
  lemma {:induction false} CountOrderTwo(rows: seq<Sale>, order: string, i: nat, j: nat)
    requires i < |rows| && j < |rows| && rows[i].orderNumber == order && rows[j].orderNumber == order
    requires CountOrder(rows, order) <= 1
    ensures i == j
  {
    var n := |rows| - 1;
    assert forall k :: 0 <= k < n ==> rows[..n][k] == rows[k];
    if i != j {
      if i < n && j < n {
        CountOrderTwo(rows[..n], order, i, j);
      } else {
        var k := if i < n then i else j;
        CountOrderPositive(rows[..n], order, k);
      }
    }
  }

  lemma {:induction false} CountOrderPositive(rows: seq<Sale>, order: string, k: nat)
    requires k < |rows| && rows[k].orderNumber == order
    ensures CountOrder(rows, order) >= 1
  {
    var n := |rows| - 1;
    if k < n {
      assert rows[..n][k] == rows[k];
      CountOrderPositive(rows[..n], order, k);
    }
  }

  /** When the order numbers' dates are distinct, the sweep leaves at most one sale per order
      number. */
  lemma LatestOnlyUnique(rows: seq<Sale>)
    requires DistinctDates(rows)
    ensures UniqueOrders(LatestOnly(rows))
  {
    var r := LatestOnly(rows);
    FilterPairwise(rows, (s: Sale) => !Stale(rows, s),
                   (a: Sale, b: Sale) => a.orderNumber == b.orderNumber ==> a.date != b.date);
    forall i, j | 0 <= i < j < |r| ensures r[i].orderNumber != r[j].orderNumber {
      assert r[i] in r && r[j] in r;
      if r[i].orderNumber == r[j].orderNumber {
        LatestOnlyExact(rows, r[i]);
        LatestOnlyExact(rows, r[j]);
      }
    }
  }

  /** Processing one group deletes the stale sales of its order number. */
  lemma SweepStep(rows0: seq<Sale>, done: set<string>, order: string)
    requires LatestDate(rows0, order).Some?
    ensures DeleteOlder(SweptOrders(rows0, done), order, LatestDate(rows0, order).value) == SweptOrders(rows0, done + {order})
  {
    var latest := LatestDate(rows0, order).value;
    FilterFilter(rows0, (s: Sale) => !(s.orderNumber in done && Stale(rows0, s)),
                 (s: Sale) => !(s.orderNumber == order && DateLt(s.date, latest)),
                 (s: Sale) => !(s.orderNumber in done + {order} && Stale(rows0, s)));
  }

  /** A group the query returns carries its order number's latest date. */
  lemma GroupIsLatest(rows: seq<Sale>, g: (string, Date))
    requires g in DuplicateGroups(rows)
    ensures LatestDate(rows, g.0) == Some(g.1)
  {
  }

  /** Once every duplicated order number is processed, the sweep is `LatestOnly`. */
  lemma SweepComplete(rows0: seq<Sale>, done: set<string>)
    requires forall g :: g in DuplicateGroups(rows0) ==> g.0 in done
    ensures SweptOrders(rows0, done) == LatestOnly(rows0)
  {
    forall s | s in rows0 && s.orderNumber !in done ensures !Stale(rows0, s) {
      var k :| 0 <= k < |rows0| && rows0[k] == s;
      assert (rows0[k].orderNumber, LatestDate(rows0, rows0[k].orderNumber).value) !in DuplicateGroups(rows0);
      SoleSaleNotStale(rows0, s);
    }
    FilterExt(rows0, (s: Sale) => !(s.orderNumber in done && Stale(rows0, s)), (s: Sale) => !Stale(rows0, s));
  }

  /** From a table whose order numbers' dates are distinct, a pass leaves at most one sale per
      order number. */
  lemma LegacyUploadUnique(t: Table, grid: Grid, users: seq<User>, u: Unicode, p: Parsers)
    requires DistinctDates(t.rows)
    requires LegacyUpload(t, grid, users, u, p).Success?
    ensures UniqueOrders(LegacyUpload(t, grid, users, u, p).value.rows)
  {
    var recs := Extraction(grid, u, p).value;
    IngestKeepsShape(t, recs, SellerDirectory(users, u), u);
    LatestOnlyUnique(Ingest(t, recs, SellerDirectory(users, u), u).rows);
  }

  /** Deleting by id the fetched sales dated on or before the row is deleting the superseded
      sales. */
  lemma DeletedAreSuperseded(t: Table, rec: Record, existing: seq<Sale>, gone: set<nat>)
    requires IdsOrdered(t)
    requires existing == SameOrder(t.rows, rec.orderNumber)
    requires forall id :: id in gone <==> exists j :: 0 <= j < |existing| && DateLe(existing[j].date, rec.date) && existing[j].id == id
    ensures WithoutIds(t.rows, gone) == WithoutSuperseded(t.rows, rec)
  {
    forall s | s in t.rows ensures (s.id !in gone) == !Superseded(s, rec) {
      if s.id in gone {
        var j :| 0 <= j < |existing| && DateLe(existing[j].date, rec.date) && existing[j].id == s.id;
        assert existing[j] in existing;
        var a :| 0 <= a < |t.rows| && t.rows[a] == s;
        var b :| 0 <= b < |t.rows| && t.rows[b] == existing[j];
        assert a == b;
      }
      if Superseded(s, rec) {
        assert s in existing;
        var j :| 0 <= j < |existing| && existing[j] == s;
      }
    }
    FilterExt(t.rows, (s: Sale) => s.id !in gone, (s: Sale) => !Superseded(s, rec));
  }

  lemma WithoutNoIds(rows: seq<Sale>, ids: set<nat>)
    requires ids == {}
    ensures WithoutIds(rows, ids) == rows
  {
    FilterKeepsAll(rows, (s: Sale) => s.id !in ids);
  }

  lemma SweptNone(rows0: seq<Sale>, done: set<string>)
    requires done == {}
    ensures SweptOrders(rows0, done) == rows0
  {
    FilterKeepsAll(rows0, (s: Sale) => !(s.orderNumber in done && Stale(rows0, s)));
  }

  lemma WithoutIdsStep(rows: seq<Sale>, ids: set<nat>, id: nat)
    ensures WithoutId(WithoutIds(rows, ids), id) == WithoutIds(rows, ids + {id})
  {
    FilterFilter(rows, (s: Sale) => s.id !in ids, (s: Sale) => s.id != id, (s: Sale) => s.id !in ids + {id});
  }

  /** The Sales table as this module holds it. */
  class LegacyStore {
    var rows: seq<Sale>
    var nextId: nat

    function State(): Table
      reads this
    {
      Table(rows, nextId)
    }

    ghost predicate Valid()
      reads this
    {
      IdsOrdered(State())
    }

    constructor ()
      ensures Valid() && rows == []
    {
      rows := [];
      nextId := 1;
    }

    /** Lines 497-511 for a row of a known seller: delete, one by one, the fetched sales of the
        order number dated on or before the row, then insert the row. */
    method UpsertRow(rec: Record, userId: nat)
      requires Valid()
      modifies this
      ensures Valid()
      ensures State() == UpsertOne(old(State()), rec, userId)
    {
      ghost var rows0 := rows;
      var existing := SameOrder(rows, rec.orderNumber);
      ghost var gone: set<nat> := {};
      WithoutNoIds(rows0, gone);
      var k := 0;
      while k < |existing|
        invariant 0 <= k <= |existing|
        invariant rows == WithoutIds(rows0, gone) && nextId == old(nextId)
        invariant forall id :: id in gone <==> exists j :: 0 <= j < k && DateLe(existing[j].date, rec.date) && existing[j].id == id
      {
        if DateLe(existing[k].date, rec.date) {
          WithoutIdsStep(rows0, gone, existing[k].id);
          rows := WithoutId(rows, existing[k].id);
          gone := gone + {existing[k].id};
        }
        k := k + 1;
      }
      DeletedAreSuperseded(Table(rows0, nextId), rec, existing, gone);
      UpsertOneKeepsIds(old(State()), rec, userId);
      rows := rows + [Sale(nextId, rec.date, rec.amount, userId, rec.orderNumber)];
      nextId := nextId + 1;
    }

    /** Lines 515-527: delete, group by group in whatever order the query returns them, the sales
        older than their order number's latest date. */
    method SweepDuplicates()
      requires Valid()
      modifies this
      ensures Valid()
      ensures rows == LatestOnly(old(rows)) && nextId == old(nextId)
    {
      var rows0 := rows;
      var groups := DuplicateGroups(rows0);
      ghost var all := groups;
      ghost var done: set<string> := {};
      SweptNone(rows0, done);
      var remaining := rows0;
      while groups != {}
        invariant groups <= all
        invariant remaining == SweptOrders(rows0, done)
        invariant forall g :: g in all && g !in groups ==> g.0 in done
        modifies {}
        decreases |groups|
      {
        var g :| g in groups;
        GroupIsLatest(rows0, g);
        SweepStep(rows0, done, g.0);
        remaining := DeleteOlder(remaining, g.0, g.1);
        done := done + {g.0};
        groups := groups - {g};
      }
      SweepComplete(rows0, done);
      LatestOnlyKeepsIds(rows0, nextId);
      rows := remaining;
    }

    /** Lines 493-511: each row of a known seller is upserted; any other row is skipped. */
    method IngestRecords(recs: seq<Record>, dir: map<string, nat>, u: Unicode)
      requires Valid()
      modifies this
      ensures Valid()
      ensures State() == Ingest(old(State()), recs, dir, u)
    {
      ghost var start := State();
      var i := 0;
      while i < |recs|
        invariant 0 <= i <= |recs|
        invariant Valid()
        invariant State() == Ingest(start, recs[..i], dir, u)
      {
        var key := SellerKey(u, recs[i].seller);
        if key in dir {
          UpsertRow(recs[i], dir[key]);
        }
        assert recs[..i + 1][..i] == recs[..i] && recs[..i + 1][i] == recs[i];
        i := i + 1;
      }
      assert recs[..i] == recs;
    }

    /** `process_file` of this module. */
    method ProcessFile(grid: Grid, users: seq<User>, u: Unicode, p: Parsers) returns (res: Result<(), ExtractError>)
      requires Valid()
      modifies this
      ensures Valid()
      ensures var spec := LegacyUpload(old(State()), grid, users, u, p);
        && (spec.Failure? ==> res == Failure(spec.error) && State() == old(State()))
        && (spec.Success? ==> res == Success(()) && State() == spec.value)
    {
      var extracted := Extract(grid, u, p);
      if extracted.Failure? {
        return Failure(extracted.error);
      }
      IngestRecords(extracted.value, SellerDirectory(users, u), u);
      SweepDuplicates();
      return Success(());
    }

    /** `delete_sale`. */
    method DeleteSale(saleId: nat)
      requires Valid()
      modifies this
      ensures Valid()
      ensures rows == WithoutId(old(rows), saleId) && nextId == old(nextId)
    {
      FilterPairwise(rows, (s: Sale) => s.id != saleId, (a: Sale, b: Sale) => a.id < b.id);
      ghost var r := WithoutId(rows, saleId);
      forall i | 0 <= i < |r| ensures r[i] in rows { assert r[i] in r; }
      rows := WithoutId(rows, saleId);
    }

    /** `delete_all_sales`. */
    method DeleteAllSales(sellerId: nat)
      requires Valid()
      modifies this
      ensures Valid()
      ensures rows == WithoutSeller(old(rows), sellerId) && nextId == old(nextId)
    {
      FilterPairwise(rows, (s: Sale) => s.userId != sellerId, (a: Sale, b: Sale) => a.id < b.id);
      ghost var r := WithoutSeller(rows, sellerId);
      forall i | 0 <= i < |r| ensures r[i] in rows { assert r[i] in r; }
      rows := WithoutSeller(rows, sellerId);
    }
  }

  /** The legacy seller view is the blueprint's view of a Loja seller over the same rows. */
  lemma LegacyFiguresAreLoja(rows: seq<Sale>, goals: Goals.GoalState, sellerId: nat, branchText: string, u: Unicode,
                             year: int, month: int)
    requires u.upper(branchText) == "LOJA"
    ensures Dashboards.SellerDashboard(AsBlueprintSales(rows), goals, sellerId, branchText, u, year, month)
            == Some(LegacyFigures(rows, goals, sellerId, year, month))
  {
  }

  /** The legacy commission rate is always 0.01 and its bonus rate is the Loja tier reached. */
  lemma LegacyPayoutRates(rows: seq<Sale>, goals: Goals.GoalState, sellerId: nat, year: int, month: int)
    ensures var f := LegacyFigures(rows, goals, sellerId, year, month);
      f.payout == Dashboards.Payout(f.totalSales * 0.01, f.totalSales * Dashboards.LojaBonusRate(f.totalSales))
  {
  }

  lemma LatestOnlyKeepsIds(rows: seq<Sale>, nextId: nat)
    requires IdsOrdered(Table(rows, nextId))
    ensures IdsOrdered(Table(LatestOnly(rows), nextId))
  {
    FilterPairwise(rows, (s: Sale) => !Stale(rows, s), (a: Sale, b: Sale) => a.id < b.id);
    var r := LatestOnly(rows);
    forall i | 0 <= i < |r| ensures r[i].id < nextId { assert r[i] in r; }
  }
}
