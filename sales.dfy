/** The sales blueprint (modules/sales/__init__.py): the upload handler's reconciler that marks the
    month's sales, accumulates each spreadsheet row onto the stored order, and sweeps the month's
    sales that no row touched; and the two delete routes. */
module Sales {
  import opened Wrappers
  import opened Seqs
  import opened Domain
  import opened TextUtils
  import opened Extractor

  /** A row of the Sales table this module assumes: `user_id` may be NULL and a `processed`
      flag (0/1) marks the sales the current upload has touched. */
  datatype Sale = Sale(id: nat, date: Date, amount: real, userId: Option<nat>, orderNumber: string, processed: bool)

  /** The table's rows in id order, with the AUTOINCREMENT counter. */
  datatype Table = Table(rows: seq<Sale>, nextId: nat)

  predicate IdsOrdered(t: Table) {
    && (forall i, j :: 0 <= i < j < |t.rows| ==> t.rows[i].id < t.rows[j].id)
    && (forall i :: 0 <= i < |t.rows| ==> t.rows[i].id < t.nextId)
  }

  /** At most one sale per order number. */
  predicate UniqueOrders(rows: seq<Sale>) {
    forall i, j :: 0 <= i < j < |rows| ==> rows[i].orderNumber != rows[j].orderNumber
  }

  // ---- marking (lines 109-113) ----

  /** `UPDATE Sales SET processed = 0` on the sales dated in (year, month). */
  function MarkWindow(rows: seq<Sale>, year: int, month: int): seq<Sale> {
    seq(|rows|, i requires 0 <= i < |rows| =>
      if InMonth(rows[i].date, year, month) then rows[i].(processed := false) else rows[i])
  }

  // ---- seller lookup (lines 116-130) ----

  /** `remove_accents(name.title())`. */
  function SellerKey(u: Unicode, name: string): string {
    RemoveAccents(u, u.title(name))
  }

  /** `sellers_dict` over every user; when two users share a key, the later one wins. */
  function SellerDirectory(users: seq<User>, u: Unicode): map<string, nat> {
    MapOf(seq(|users|, k requires 0 <= k < |users| => (SellerKey(u, users[k].name), users[k].id)))
  }

  /** Every user's key is in the directory, and every key maps to the id of the last user
      carrying it. */
  lemma SellerDirectoryLastWins(users: seq<User>, u: Unicode, key: string)
    ensures key in SellerDirectory(users, u) <==> exists k :: 0 <= k < |users| && SellerKey(u, users[k].name) == key
    ensures key in SellerDirectory(users, u) ==>
      exists k :: && 0 <= k < |users| && SellerKey(u, users[k].name) == key && SellerDirectory(users, u)[key] == users[k].id
                  && forall l :: k < l < |users| ==> SellerKey(u, users[l].name) != key
  {
    var entries := seq(|users|, k requires 0 <= k < |users| => (SellerKey(u, users[k].name), users[k].id));
    var dir := SellerDirectory(users, u);
    assert dir == MapOf(entries);
    MapOfLastWins(entries, key);
    if exists k :: 0 <= k < |users| && SellerKey(u, users[k].name) == key {
      var k :| 0 <= k < |users| && SellerKey(u, users[k].name) == key;
      assert entries[k].0 == key;
    }
    if key in dir {
      var k :| && 0 <= k < |entries| && entries[k] == (key, dir[key])
               && forall l :: k < l < |entries| ==> entries[l].0 != key;
      assert SellerKey(u, users[k].name) == key && dir[key] == users[k].id;
      assert forall l :: k < l < |users| ==> SellerKey(u, users[l].name) == entries[l].0;
    }
  }

  /** `sellers_dict.get(seller_name, None)`. */
  function OwnerOf(dir: map<string, nat>, key: string): Option<nat> {
    if key in dir then Some(dir[key]) else None
  }

  function OwnerOfRecord(dir: map<string, nat>, u: Unicode, rec: Record): Option<nat> {
    OwnerOf(dir, SellerKey(u, rec.seller))
  }

  /** The warnings of one upload: the set of unmatched seller keys seen so far, and one message
      (the title-cased name as written) per key, in first-seen order. */
  function Warnings(recs: seq<Record>, dir: map<string, nat>, u: Unicode): (set<string>, seq<string>) {
    if recs == [] then ({}, [])
    else
      var n := |recs| - 1;
      var (seen, msgs) := Warnings(recs[..n], dir, u);
      var key := SellerKey(u, recs[n].seller);
      if key !in dir && key !in seen then (seen + {key}, msgs + [u.title(recs[n].seller)])
      else (seen, msgs)
  }

  /** The seller keys of an upload that no user has. */
  function UnmatchedKeys(recs: seq<Record>, dir: map<string, nat>, u: Unicode): set<string> {
    set k | 0 <= k < |recs| && SellerKey(u, recs[k].seller) !in dir :: SellerKey(u, recs[k].seller)
  }

  /** Row `i` is the first row of the upload carrying its seller key, and no user has that key. */
  predicate FirstUnmatched(recs: seq<Record>, dir: map<string, nat>, u: Unicode, i: nat) {
    && i < |recs|
    && SellerKey(u, recs[i].seller) !in dir
    && forall j :: 0 <= j < i ==> SellerKey(u, recs[j].seller) != SellerKey(u, recs[i].seller)
  }

  /** The rows of the upload that are first to carry an unmatched key, in increasing order. */
  function FirstUnmatchedRows(recs: seq<Record>, dir: map<string, nat>, u: Unicode): (rows: seq<nat>)
    ensures Increasing(rows)
    ensures forall k :: 0 <= k < |rows| ==> rows[k] < |recs|
    ensures forall i :: 0 <= i < |recs| ==> (i in rows <==> FirstUnmatched(recs, dir, u, i))
  {
    if recs == [] then []
    else
      var n := |recs| - 1;
      var prev := FirstUnmatchedRows(recs[..n], dir, u);
      FirstUnmatchedInPrefix(recs, dir, u);
      if FirstUnmatched(recs, dir, u, n) then prev + [n] else prev
  }

  /** Dropping the last row changes no earlier row's status. */
  lemma FirstUnmatchedInPrefix(recs: seq<Record>, dir: map<string, nat>, u: Unicode)
    requires recs != []
    ensures forall i :: 0 <= i < |recs| - 1 ==>
      (FirstUnmatched(recs[..|recs| - 1], dir, u, i) <==> FirstUnmatched(recs, dir, u, i))
  {
    var prefix := recs[..|recs| - 1];
    assert forall i :: 0 <= i < |prefix| ==> prefix[i] == recs[i];
  }

  // ---- one spreadsheet row (lines 132-152) ----

  /** `SELECT id, amount FROM Sales WHERE order_number = ?` then `fetchone()`: the first sale with
      that order number, over the whole table. */
  function FirstWithOrder(rows: seq<Sale>, order: string): (r: Option<nat>)
    ensures r.Some? ==> r.value < |rows| && rows[r.value].orderNumber == order
    ensures r.Some? ==> forall j :: 0 <= j < r.value ==> rows[j].orderNumber != order
    ensures r.None? ==> forall j :: 0 <= j < |rows| ==> rows[j].orderNumber != order
  {
    if rows == [] then None
    else if rows[0].orderNumber == order then Some(0)
    else
      var r := FirstWithOrder(rows[1..], order);
      assert forall j :: 0 < j < |rows| ==> rows[j] == rows[1..][j - 1];
      if r.None? then None else Some(r.value + 1)
  }

  /** Add `amount` to the sale at `i`, marking it processed, or delete it once the sum is no
      longer positive. */
  function Accumulate(rows: seq<Sale>, i: nat, amount: real): seq<Sale>
    requires i < |rows|
  {
    var sum := rows[i].amount + amount;
    if sum <= 0.0 then rows[..i] + rows[i + 1..]
    else rows[i := rows[i].(amount := sum, processed := true)]
  }

  /** Accumulate the row onto the first sale of its order number, or insert a new processed sale
      when the order number is new. */
  function ApplyRecord(t: Table, rec: Record, owner: Option<nat>): Table {
    match FirstWithOrder(t.rows, rec.orderNumber)
    case Some(i) => t.(rows := Accumulate(t.rows, i, rec.amount))
    case None =>
      Table(t.rows + [Sale(t.nextId, rec.date, rec.amount, owner, rec.orderNumber, true)], t.nextId + 1)
  }

  /** The row loop: every record applied in spreadsheet order. */
  function Ingest(t: Table, recs: seq<Record>, dir: map<string, nat>, u: Unicode): Table {
    if recs == [] then t
    else
      var n := |recs| - 1;
      ApplyRecord(Ingest(t, recs[..n], dir, u), recs[n], OwnerOfRecord(dir, u, recs[n]))
  }

  // ---- the sweep (lines 154-159) ----

  /** A sale the sweep deletes: dated in the window and never touched by the upload. */
  predicate Pending(s: Sale, year: int, month: int) {
    InMonth(s.date, year, month) && !s.processed
  }

  function PurgePending(rows: seq<Sale>, year: int, month: int): seq<Sale> {
    Filter(rows, (s: Sale) => !Pending(s, year, month))
  }

  /** Mark, ingest and sweep. */
  function Reconcile(t: Table, recs: seq<Record>, dir: map<string, nat>, u: Unicode, year: int, month: int): Table {
    var ingested := Ingest(t.(rows := MarkWindow(t.rows, year, month)), recs, dir, u);
    ingested.(rows := PurgePending(ingested.rows, year, month))
  }

  /** `process_file` on a store: the extraction's error exits leave the store alone; otherwise the
      reconciled table and the warnings issued. */
  function Upload(t: Table, grid: Grid, users: seq<User>, u: Unicode, p: Parsers, year: int, month: int)
    : Result<(Table, seq<string>), ExtractError>
  {
    match Extraction(grid, u, p)
    case Failure(e) => Failure(e)
    case Success(recs) =>
      var dir := SellerDirectory(users, u);
      Success((Reconcile(t, recs, dir, u, year, month), Warnings(recs, dir, u).1))
  }

  // ---- the delete routes (lines 171-198) ----

  /** `DELETE FROM Sales WHERE id = ?`. */
  function WithoutSale(rows: seq<Sale>, saleId: nat): seq<Sale> {
    Filter(rows, (s: Sale) => s.id != saleId)
  }

  /** `DELETE FROM Sales WHERE user_id = ?`; a NULL owner never equals the parameter. */
  function WithoutSeller(rows: seq<Sale>, sellerId: nat): seq<Sale> {
    Filter(rows, (s: Sale) => s.userId != Some(sellerId))
  }

  // ---- properties of marking ----

  /** Marking clears the flag of exactly the window's sales; every other field, and the flag of
      every other sale, is unchanged. */
  lemma MarkWindowFlags(rows: seq<Sale>, year: int, month: int)
    ensures var r := MarkWindow(rows, year, month);
      && |r| == |rows|
      && forall i :: 0 <= i < |rows| ==>
           && r[i].(processed := rows[i].processed) == rows[i]
           && (InMonth(rows[i].date, year, month) ==> !r[i].processed)
           && (!InMonth(rows[i].date, year, month) ==> r[i].processed == rows[i].processed)
  {
  }

  lemma MarkWindowKeepsShape(t: Table, year: int, month: int)
    ensures IdsOrdered(t) ==> IdsOrdered(t.(rows := MarkWindow(t.rows, year, month)))
    ensures UniqueOrders(t.rows) ==> UniqueOrders(MarkWindow(t.rows, year, month))
  {
  }

  // ---- properties of one row ----

  /** One row leaves every sale of another order number where it was: it can only update or
      delete a sale of its own order number, or insert one. */
  lemma ApplyRecordFrame(t: Table, rec: Record, owner: Option<nat>, s: Sale)
    requires s.orderNumber != rec.orderNumber
    ensures s in ApplyRecord(t, rec, owner).rows <==> s in t.rows
  {
    var t' := ApplyRecord(t, rec, owner);
    match FirstWithOrder(t.rows, rec.orderNumber)
    case Some(i) =>
      if t.rows[i].amount + rec.amount <= 0.0 {
        assert t.rows == t.rows[..i] + [t.rows[i]] + t.rows[i + 1..];
      } else {
        if s in t.rows {
          var j :| 0 <= j < |t.rows| && t.rows[j] == s;
          assert t'.rows[j] == s;
        }
        if s in t'.rows {
          var j :| 0 <= j < |t'.rows| && t'.rows[j] == s;
          assert t.rows[j] == s;
        }
      }
    case None =>
  }

  /** A row whose order number is stored replaces the first sale with that number by the same
      sale carrying the accumulated amount and marked processed, or removes it when the sum is
      not positive; every other sale, with its multiplicity, is kept. */
  lemma ApplyRecordMatched(t: Table, rec: Record, owner: Option<nat>)
    requires FirstWithOrder(t.rows, rec.orderNumber).Some?
    ensures var old_ := t.rows[FirstWithOrder(t.rows, rec.orderNumber).value];
      var sum := old_.amount + rec.amount;
      var t' := ApplyRecord(t, rec, owner);
      && t'.nextId == t.nextId
      && multiset(t'.rows) == multiset(t.rows) - multiset{old_}
                              + (if sum <= 0.0 then multiset{} else multiset{old_.(amount := sum, processed := true)})
  {
    AccumulateMultiset(t.rows, FirstWithOrder(t.rows, rec.orderNumber).value, rec.amount);
  }

  lemma AccumulateMultiset(rows: seq<Sale>, i: nat, amount: real)
    requires i < |rows|
    ensures var sum := rows[i].amount + amount;
      multiset(Accumulate(rows, i, amount)) == multiset(rows) - multiset{rows[i]}
        + (if sum <= 0.0 then multiset{} else multiset{rows[i].(amount := sum, processed := true)})
  {
    if rows[i].amount + amount <= 0.0 {
      RemoveAtShifts(rows, i);
    } else {
      UpdateAtMultiset(rows, i, rows[i].(amount := rows[i].amount + amount, processed := true));
    }
  }

  /** A row with a new order number appends exactly one processed sale carrying the row's date,
      amount, owner and order number under a fresh id; nothing else changes. */
  lemma ApplyRecordInserted(t: Table, rec: Record, owner: Option<nat>)
    requires IdsOrdered(t)
    requires FirstWithOrder(t.rows, rec.orderNumber).None?
    ensures var t' := ApplyRecord(t, rec, owner);
      && t'.rows == t.rows + [Sale(t.nextId, rec.date, rec.amount, owner, rec.orderNumber, true)]
      && (forall s :: s in t.rows ==> s.id != t.nextId && s.orderNumber != rec.orderNumber)
      && t'.nextId == t.nextId + 1
  {
  }

  /** One row keeps the ids ordered and fresh. */
  lemma ApplyRecordKeepsIds(t: Table, rec: Record, owner: Option<nat>)
    requires IdsOrdered(t)
    ensures IdsOrdered(ApplyRecord(t, rec, owner))
  {
    match FirstWithOrder(t.rows, rec.orderNumber)
    case Some(i) => AccumulateKeepsIds(t, i, rec.amount);
    case None =>
  }

  lemma AccumulateKeepsIds(t: Table, i: nat, amount: real)
    requires IdsOrdered(t) && i < |t.rows|
    ensures IdsOrdered(t.(rows := Accumulate(t.rows, i, amount)))
  {
    var r := Accumulate(t.rows, i, amount);
    if t.rows[i].amount + amount <= 0.0 {
      RemoveAtShifts(t.rows, i);
      forall a, b | 0 <= a < b < |r| ensures r[a].id < r[b].id {
        var a' := if a < i then a else a + 1;
        var b' := if b < i then b else b + 1;
        assert r[a] == t.rows[a'] && r[b] == t.rows[b'];
      }
      forall a | 0 <= a < |r| ensures r[a].id < t.nextId {
        var a' := if a < i then a else a + 1;
        assert r[a] == t.rows[a'];
      }
    } else {
      assert forall a :: 0 <= a < |r| ==> r[a].id == t.rows[a].id;
    }
  }

  /** One row keeps at most one sale per order number: it inserts only when no sale has the order
      number, and a delete or update does not add one. */
  lemma ApplyRecordKeepsUniqueOrders(t: Table, rec: Record, owner: Option<nat>)
    requires UniqueOrders(t.rows)
    ensures UniqueOrders(ApplyRecord(t, rec, owner).rows)
  {
    var t' := ApplyRecord(t, rec, owner);
    match FirstWithOrder(t.rows, rec.orderNumber)
    case Some(i) =>
      forall a, b | 0 <= a < b < |t'.rows| ensures t'.rows[a].orderNumber != t'.rows[b].orderNumber {
        if t.rows[i].amount + rec.amount <= 0.0 {
          var a' := if a < i then a else a + 1;
          var b' := if b < i then b else b + 1;
          assert t'.rows[a] == t.rows[a'] && t'.rows[b] == t.rows[b'];
        } else {
          assert t'.rows[a].orderNumber == t.rows[a].orderNumber;
          assert t'.rows[b].orderNumber == t.rows[b].orderNumber;
        }
      }
    case None =>
      forall a, b | 0 <= a < b < |t'.rows| ensures t'.rows[a].orderNumber != t'.rows[b].orderNumber {
        if b == |t.rows| {
          assert t'.rows[a] == t.rows[a];
        }
      }
  }

  // ---- properties of the row loop ----

  lemma {:induction false} IngestKeepsShape(t: Table, recs: seq<Record>, dir: map<string, nat>, u: Unicode)
    ensures IdsOrdered(t) ==> IdsOrdered(Ingest(t, recs, dir, u))
    ensures UniqueOrders(t.rows) ==> UniqueOrders(Ingest(t, recs, dir, u).rows)
  {
    if recs != [] {
      var n := |recs| - 1;
      IngestKeepsShape(t, recs[..n], dir, u);
      var t1 := Ingest(t, recs[..n], dir, u);
      if IdsOrdered(t) { ApplyRecordKeepsIds(t1, recs[n], OwnerOfRecord(dir, u, recs[n])); }
      if UniqueOrders(t.rows) { ApplyRecordKeepsUniqueOrders(t1, recs[n], OwnerOfRecord(dir, u, recs[n])); }
    }
  }

  /** Some row of the upload carries `order`. */
  predicate InUpload(recs: seq<Record>, order: string) {
    exists k :: 0 <= k < |recs| && recs[k].orderNumber == order
  }

  /** Every processed sale of the window carries an order number of the upload. */
  ghost predicate WindowCovered(rows: seq<Sale>, recs: seq<Record>, year: int, month: int) {
    forall s :: s in rows && InMonth(s.date, year, month) && s.processed ==> InUpload(recs, s.orderNumber)
  }

  lemma ApplyRecordCovers(t: Table, recs: seq<Record>, rec: Record, owner: Option<nat>, year: int, month: int)
    requires WindowCovered(t.rows, recs, year, month)
    ensures WindowCovered(ApplyRecord(t, rec, owner).rows, recs + [rec], year, month)
  {
    var recs' := recs + [rec];
    forall s | s in ApplyRecord(t, rec, owner).rows && InMonth(s.date, year, month) && s.processed
      ensures InUpload(recs', s.orderNumber)
    {
      if s.orderNumber == rec.orderNumber {
        assert recs'[|recs|] == rec;
      } else {
        ApplyRecordFrame(t, rec, owner, s);
        var k :| 0 <= k < |recs| && recs[k].orderNumber == s.orderNumber;
        assert recs'[k] == recs[k];
      }
    }
  }

  lemma {:induction false} IngestCovers(t: Table, recs: seq<Record>, dir: map<string, nat>, u: Unicode, year: int, month: int)
    requires WindowCovered(t.rows, [], year, month)
    ensures WindowCovered(Ingest(t, recs, dir, u).rows, recs, year, month)
  {
    if recs != [] {
      var n := |recs| - 1;
      IngestCovers(t, recs[..n], dir, u, year, month);
      ApplyRecordCovers(Ingest(t, recs[..n], dir, u), recs[..n], recs[n], OwnerOfRecord(dir, u, recs[n]), year, month);
      assert recs[..n] + [recs[n]] == recs;
    }
  }

  /** A sale no row of the upload names is never touched by the row loop. */
  lemma {:induction false} IngestKeepsUnnamed(t: Table, recs: seq<Record>, dir: map<string, nat>, u: Unicode, s: Sale)
    requires s in t.rows && !InUpload(recs, s.orderNumber)
    ensures s in Ingest(t, recs, dir, u).rows
  {
    if recs != [] {
      var n := |recs| - 1;
      assert !InUpload(recs[..n], s.orderNumber);
      IngestKeepsUnnamed(t, recs[..n], dir, u, s);
      ApplyRecordFrame(Ingest(t, recs[..n], dir, u), recs[n], OwnerOfRecord(dir, u, recs[n]), s);
    }
  }

  // ---- properties of the sweep and of the whole pass ----

  /** The sweep deletes exactly the window's untouched sales and keeps every other sale. */
  lemma PurgePendingExact(rows: seq<Sale>, year: int, month: int)
    ensures var r := PurgePending(rows, year, month);
      forall s :: s in r <==> s in rows && !Pending(s, year, month)
  {
  }

  lemma PurgePendingKeepsShape(t: Table, year: int, month: int)
    ensures IdsOrdered(t) ==> IdsOrdered(t.(rows := PurgePending(t.rows, year, month)))
    ensures UniqueOrders(t.rows) ==> UniqueOrders(PurgePending(t.rows, year, month))
  {
    if IdsOrdered(t) {
      FilterPairwise(t.rows, (s: Sale) => !Pending(s, year, month), (a: Sale, b: Sale) => a.id < b.id);
      var r := PurgePending(t.rows, year, month);
      forall i | 0 <= i < |r| ensures r[i].id < t.nextId { assert r[i] in r; }
    }
    if UniqueOrders(t.rows) {
      FilterPairwise(t.rows, (s: Sale) => !Pending(s, year, month), (a: Sale, b: Sale) => a.orderNumber != b.orderNumber);
    }
  }

  /** A pass keeps ids ordered and fresh, and keeps at most one sale per order number. */
  lemma ReconcileKeepsShape(t: Table, recs: seq<Record>, dir: map<string, nat>, u: Unicode, year: int, month: int)
    ensures IdsOrdered(t) ==> IdsOrdered(Reconcile(t, recs, dir, u, year, month))
    ensures UniqueOrders(t.rows) ==> UniqueOrders(Reconcile(t, recs, dir, u, year, month).rows)
  {
    var marked := t.(rows := MarkWindow(t.rows, year, month));
    MarkWindowKeepsShape(t, year, month);
    IngestKeepsShape(marked, recs, dir, u);
    PurgePendingKeepsShape(Ingest(marked, recs, dir, u), year, month);
  }

  /** After a pass, every sale dated in the window carries an order number of the upload: the
      window's sales the spreadsheet no longer lists are removed as returns. */
  lemma ReconcileDropsUnlistedWindowSales(t: Table, recs: seq<Record>, dir: map<string, nat>, u: Unicode,
                                          year: int, month: int, s: Sale)
    requires s in Reconcile(t, recs, dir, u, year, month).rows && InMonth(s.date, year, month)
    ensures InUpload(recs, s.orderNumber)
  {
    var marked := t.(rows := MarkWindow(t.rows, year, month));
    forall x | x in marked.rows && InMonth(x.date, year, month) ensures !x.processed {
      var j :| 0 <= j < |marked.rows| && marked.rows[j] == x;
    }
    IngestCovers(marked, recs, dir, u, year, month);
  }

  /** A sale dated outside the window whose order number the upload does not name survives the
      pass unchanged. */
  lemma ReconcileKeepsUnlistedOtherSales(t: Table, recs: seq<Record>, dir: map<string, nat>, u: Unicode,
                                         year: int, month: int, s: Sale)
    requires s in t.rows && !InMonth(s.date, year, month) && !InUpload(recs, s.orderNumber)
    ensures s in Reconcile(t, recs, dir, u, year, month).rows
  {
    var marked := t.(rows := MarkWindow(t.rows, year, month));
    var j :| 0 <= j < |t.rows| && t.rows[j] == s;
    assert marked.rows[j] == s;
    IngestKeepsUnnamed(marked, recs, dir, u, s);
  }

  // ---- properties of the warnings ----

  lemma UnmatchedKeysSnoc(recs: seq<Record>, dir: map<string, nat>, u: Unicode)
    requires recs != []
    ensures var n := |recs| - 1;
      var key := SellerKey(u, recs[n].seller);
      UnmatchedKeys(recs, dir, u) == UnmatchedKeys(recs[..n], dir, u) + (if key !in dir then {key} else {})
  {
    var n := |recs| - 1;
    var key := SellerKey(u, recs[n].seller);
    var prev := UnmatchedKeys(recs[..n], dir, u);
    forall x | x in UnmatchedKeys(recs, dir, u) ensures x in prev + (if key !in dir then {key} else {}) {
      var k :| 0 <= k < |recs| && SellerKey(u, recs[k].seller) !in dir && SellerKey(u, recs[k].seller) == x;
      if k < n { assert recs[..n][k] == recs[k]; }
    }
    forall x | x in prev ensures x in UnmatchedKeys(recs, dir, u) {
      var k :| 0 <= k < n && SellerKey(u, recs[..n][k].seller) !in dir && SellerKey(u, recs[..n][k].seller) == x;
      assert recs[..n][k] == recs[k];
    }
  }

  /** Each distinct unmatched seller key is reported exactly once: the keys seen are exactly the
      upload's unmatched keys, and there is one message per key. */
  lemma {:induction false} WarningsOncePerSeller(recs: seq<Record>, dir: map<string, nat>, u: Unicode)
    ensures Warnings(recs, dir, u).0 == UnmatchedKeys(recs, dir, u)
    ensures |Warnings(recs, dir, u).1| == |Warnings(recs, dir, u).0|
  {
    if recs != [] {
      var n := |recs| - 1;
      WarningsOncePerSeller(recs[..n], dir, u);
      UnmatchedKeysSnoc(recs, dir, u);
    }
  }

  /** The last row gets a warning exactly when it is the first to carry an unmatched key. */
  lemma LastRowFirstUnmatched(recs: seq<Record>, dir: map<string, nat>, u: Unicode)
    requires recs != []
    ensures var n := |recs| - 1;
      var key := SellerKey(u, recs[n].seller);
      key !in dir && key !in UnmatchedKeys(recs[..n], dir, u) <==> FirstUnmatched(recs, dir, u, n)
  {
    var n := |recs| - 1;
    var prefix := recs[..n];
    var key := SellerKey(u, recs[n].seller);
    if key !in dir && key in UnmatchedKeys(prefix, dir, u) {
      var j :| 0 <= j < n && SellerKey(u, prefix[j].seller) !in dir && SellerKey(u, prefix[j].seller) == key;
      assert prefix[j] == recs[j];
    }
    if key !in dir && !FirstUnmatched(recs, dir, u, n) {
      var j :| 0 <= j < n && SellerKey(u, recs[j].seller) == key;
      assert prefix[j] == recs[j];
    }
  }

  /** The rows that are first to carry an unmatched key carry pairwise different keys. */
  lemma FirstUnmatchedKeysDistinct(recs: seq<Record>, dir: map<string, nat>, u: Unicode)
    ensures var rows := FirstUnmatchedRows(recs, dir, u);
      forall k, l :: 0 <= k < l < |rows| ==> SellerKey(u, recs[rows[k]].seller) != SellerKey(u, recs[rows[l]].seller)
  {
    var rows := FirstUnmatchedRows(recs, dir, u);
    forall k, l | 0 <= k < l < |rows| ensures SellerKey(u, recs[rows[k]].seller) != SellerKey(u, recs[rows[l]].seller) {
      assert rows[l] in rows && rows[k] < rows[l];
    }
  }

  /** One more row adds a message exactly when it is the first to carry an unmatched key. */
  lemma WarningsStep(recs: seq<Record>, dir: map<string, nat>, u: Unicode)
    requires recs != []
    ensures var n := |recs| - 1;
      Warnings(recs, dir, u).1
        == Warnings(recs[..n], dir, u).1 + (if FirstUnmatched(recs, dir, u, n) then [u.title(recs[n].seller)] else [])
  {
    WarningsOncePerSeller(recs[..|recs| - 1], dir, u);
    LastRowFirstUnmatched(recs, dir, u);
  }

  lemma FirstUnmatchedRowsStep(recs: seq<Record>, dir: map<string, nat>, u: Unicode)
    requires recs != []
    ensures var n := |recs| - 1;
      FirstUnmatchedRows(recs, dir, u)
        == FirstUnmatchedRows(recs[..n], dir, u) + (if FirstUnmatched(recs, dir, u, n) then [n] else [])
  {
  }

  /** The messages name the sellers in first-seen order: the k-th message is the title-cased
      name on the k-th row that is first to carry an unmatched key. */
  lemma {:induction false} WarningMessagesInOrder(recs: seq<Record>, dir: map<string, nat>, u: Unicode)
    ensures var msgs, rows := Warnings(recs, dir, u).1, FirstUnmatchedRows(recs, dir, u);
      && |msgs| == |rows|
      && forall k :: 0 <= k < |msgs| ==> msgs[k] == u.title(recs[rows[k]].seller)
  {
    if recs != [] {
      var n := |recs| - 1;
      var prefix := recs[..n];
      WarningMessagesInOrder(prefix, dir, u);
      WarningsStep(recs, dir, u);
      FirstUnmatchedRowsStep(recs, dir, u);
      var rows := FirstUnmatchedRows(recs, dir, u);
      var msgs := Warnings(recs, dir, u).1;
      var prev := FirstUnmatchedRows(prefix, dir, u);
      var pm := Warnings(prefix, dir, u).1;
      forall k | 0 <= k < |msgs| ensures msgs[k] == u.title(recs[rows[k]].seller) {
        if k < |pm| {
          assert msgs[k] == pm[k] && rows[k] == prev[k];
          assert prefix[prev[k]] == recs[prev[k]];
        }
      }
    }
  }

  /** An unmatched seller's sale is still stored, with no owner. */
  lemma UnmatchedSellerStoredWithoutOwner(t: Table, rec: Record, dir: map<string, nat>, u: Unicode)
    requires SellerKey(u, rec.seller) !in dir
    requires FirstWithOrder(t.rows, rec.orderNumber).None?
    ensures Sale(t.nextId, rec.date, rec.amount, None, rec.orderNumber, true) in ApplyRecord(t, rec, OwnerOfRecord(dir, u, rec)).rows
  {
    var t' := ApplyRecord(t, rec, OwnerOfRecord(dir, u, rec));
    assert t'.rows[|t.rows|] == Sale(t.nextId, rec.date, rec.amount, None, rec.orderNumber, true);
  }

  // ---- properties of the delete routes ----

  /** `delete_sale` removes the sale with that id and only it. */
  lemma WithoutSaleExact(rows: seq<Sale>, saleId: nat)
    ensures forall s :: s in WithoutSale(rows, saleId) <==> s in rows && s.id != saleId
  {
  }

  /** `delete_all_sales` removes exactly the sales owned by that seller. */
  lemma WithoutSellerExact(rows: seq<Sale>, sellerId: nat)
    ensures forall s :: s in WithoutSeller(rows, sellerId) <==> s in rows && s.userId != Some(sellerId)
  {
  }

  /** `delete_all_sales` on a table with one more sale at the end. */
  lemma WithoutSellerSnoc(rows: seq<Sale>, x: Sale, sellerId: nat)
    ensures WithoutSeller(rows + [x], sellerId) == WithoutSeller(rows, sellerId) + (if x.userId != Some(sellerId) then [x] else [])
  {
    FilterSnoc(rows, x, (s: Sale) => s.userId != Some(sellerId));
  }

  // ---- re-uploading ----

  /** The sweep keeps a table none of whose sales is pending. */
  lemma PurgePendingKeepsAll(rows: seq<Sale>, year: int, month: int)
    requires forall s :: s in rows ==> !Pending(s, year, month)
    ensures PurgePending(rows, year, month) == rows
  {
    FilterKeepsAll(rows, (s: Sale) => !Pending(s, year, month));
  }

  /** The row loop accumulates: uploading the same one-row spreadsheet twice in the same month
      leaves the order at twice its amount rather than at the spreadsheet's figure. */
  lemma ReuploadAccumulates(u: Unicode, dir: map<string, nat>)
    ensures var recs := [Record(Date(2024, 5, 10), 100.0, "P1", "ana", "c")];
      var once := Reconcile(Table([], 1), recs, dir, u, 2024, 5);
      var twice := Reconcile(once, recs, dir, u, 2024, 5);
      |twice.rows| == 1 && twice.rows[0].amount == 200.0
  {
    var d := Date(2024, 5, 10);
    var rec := Record(d, 100.0, "P1", "ana", "c");
    var recs := [rec];
    assert recs[..0] == [] && recs[0] == rec;
    var owner := OwnerOfRecord(dir, u, rec);
    var s1 := Sale(1, d, 100.0, owner, "P1", true);
    assert MarkWindow([], 2024, 5) == [];
    assert FirstWithOrder([], "P1") == None;
    assert Ingest(Table([], 1), recs, dir, u) == Table([s1], 2);
    PurgePendingKeepsAll([s1], 2024, 5);
    var once := Reconcile(Table([], 1), recs, dir, u, 2024, 5);
    assert once == Table([s1], 2);
    var marked := [s1.(processed := false)];
    assert MarkWindow(once.rows, 2024, 5) == marked;
    assert FirstWithOrder(marked, "P1") == Some(0);
    var s2 := s1.(amount := 200.0, processed := true);
    assert Ingest(Table(marked, 2), recs, dir, u) == Table([s2], 2);
    PurgePendingKeepsAll([s2], 2024, 5);
  }

  /** The Sales table as the blueprint holds it. */
  class SalesStore {
    var rows: seq<Sale>
    var nextId: nat

    function State(): Table
      reads this
    {
      Table(rows, nextId)
    }

    ghost predicate Valid()
      reads this
    {
      IdsOrdered(State())
    }

    constructor ()
      ensures Valid() && rows == []
    {
      rows := [];
      nextId := 1;
    }

    /** The SELECT and the UPDATE, DELETE or INSERT for one spreadsheet row. */
    method ApplyRow(rec: Record, owner: Option<nat>)
      requires Valid()
      modifies this
      ensures Valid()
      ensures State() == ApplyRecord(old(State()), rec, owner)
    {
      ApplyRecordKeepsIds(State(), rec, owner);
      var existing := FirstWithOrder(rows, rec.orderNumber);
      if existing.Some? {
        var i := existing.value;
        var newAmount := rows[i].amount + rec.amount;
        if newAmount <= 0.0 {
          rows := rows[..i] + rows[i + 1..];
        } else {
          rows := rows[i := rows[i].(amount := newAmount, processed := true)];
        }
      } else {
        rows := rows + [Sale(nextId, rec.date, rec.amount, owner, rec.orderNumber, true)];
        nextId := nextId + 1;
      }
    }

    /** Lines 109-159 of `process_file`: mark the window, run the row loop, sweep. */
    method ReconcileRecords(recs: seq<Record>, dir: map<string, nat>, u: Unicode, year: int, month: int)
      returns (warnings: seq<string>)
      requires Valid()
      modifies this
      ensures Valid()
      ensures State() == Reconcile(old(State()), recs, dir, u, year, month)
      ensures warnings == Warnings(recs, dir, u).1
    {
      MarkWindowKeepsShape(State(), year, month);
      rows := MarkWindow(rows, year, month);
      ghost var marked := State();
      var unregistered: set<string> := {};
      warnings := [];
      var i := 0;
      while i < |recs|
        invariant 0 <= i <= |recs|
        invariant Valid()
        invariant State() == Ingest(marked, recs[..i], dir, u)
        invariant (unregistered, warnings) == Warnings(recs[..i], dir, u)
      {
        var rec := recs[i];
        var sellerName := SellerKey(u, rec.seller);
        var owner := OwnerOf(dir, sellerName);
        if owner.None? && sellerName !in unregistered {
          unregistered := unregistered + {sellerName};
          warnings := warnings + [u.title(rec.seller)];
        }
        ApplyRow(rec, owner);
        assert recs[..i + 1][..i] == recs[..i] && recs[..i + 1][i] == rec;
        i := i + 1;
      }
      assert recs[..i] == recs;
      PurgePendingKeepsShape(State(), year, month);
      rows := PurgePending(rows, year, month);
    }

    /** `process_file` with the month of the upload given as (year, month). */
    method ProcessFile(grid: Grid, users: seq<User>, u: Unicode, p: Parsers, year: int, month: int)
      returns (res: Result<seq<string>, ExtractError>)
      requires Valid()
      modifies this
      ensures Valid()
      ensures var spec := Upload(old(State()), grid, users, u, p, year, month);
        && (spec.Failure? ==> res == Failure(spec.error) && State() == old(State()))
        && (spec.Success? ==> res == Success(spec.value.1) && State() == spec.value.0)
    {
      var extracted := Extract(grid, u, p);
      if extracted.Failure? {
        return Failure(extracted.error);
      }
      var dir := SellerDirectory(users, u);
      var warnings := ReconcileRecords(extracted.value, dir, u, year, month);
      return Success(warnings);
    }

    /** `delete_sale`. */
    method DeleteSale(saleId: nat)
      requires Valid()
      modifies this
      ensures Valid()
      ensures rows == WithoutSale(old(rows), saleId) && nextId == old(nextId)
    {
      FilterPairwise(rows, (s: Sale) => s.id != saleId, (a: Sale, b: Sale) => a.id < b.id);
      ghost var r := WithoutSale(rows, saleId);
      forall i | 0 <= i < |r| ensures r[i] in rows { assert r[i] in r; }
      rows := WithoutSale(rows, saleId);
    }

    /** `delete_all_sales`. */
    method DeleteAllSales(sellerId: nat)
      requires Valid()
      modifies this
      ensures Valid()
      ensures rows == WithoutSeller(old(rows), sellerId) && nextId == old(nextId)
    {
      FilterPairwise(rows, (s: Sale) => s.userId != Some(sellerId), (a: Sale, b: Sale) => a.id < b.id);
      ghost var r := WithoutSeller(rows, sellerId);
      forall i | 0 <= i < |r| ensures r[i] in rows { assert r[i] in r; }
      rows := WithoutSeller(rows, sellerId);
    }
  }
}
