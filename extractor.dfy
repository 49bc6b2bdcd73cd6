/** The tabular extractor of both upload handlers (comisys.py:434-477 and
    modules/sales/__init__.py:54-100, the same code twice): find the header row, normalise the
    column names, drop blank rows, check the required columns, coerce the date and amount
    columns, drop rows that fail coercion, and drop orders from the excluded customers. */
module Extractor {
  import opened Wrappers
  import opened Seqs
  import opened Domain
  import opened TextUtils

  /** A spreadsheet cell as pandas reads it: text, or missing (NaN). */
  type Cell = Option<string>
  type Grid = seq<seq<Cell>>

  /** `pd.to_datetime(_, format='%d/%m/%Y', errors='coerce')` and
      `pd.to_numeric(_, errors='coerce')` on one cell's text; `None` is a coercion failure. */
  datatype Parsers = Parsers(toDate: string -> Option<Date>, toNumber: string -> Option<real>)

  /** One cleaned spreadsheet row. */
  datatype Record = Record(date: Date, amount: real, orderNumber: string, seller: string, customer: string)

  datatype ExtractError =
    | HeaderNotFound
    | MissingColumns(missing: set<string>)
    /** A required name carried by two header cells once stripped and lower-cased: `df[name]`
        is then a two-column frame, which the conversions below the column check refuse. */
    | DuplicateColumns(duplicated: set<string>)

  const DateColumn: string := "data"
  const AmountColumn: string := "valor total"
  const OrderColumn: string := "n\U{BA} ped/ os/ prq"
  const SellerColumn: string := "vendedor"
  const CustomerColumn: string := "cliente"
  const RequiredColumns: set<string> := {DateColumn, AmountColumn, OrderColumn, SellerColumn, CustomerColumn}

  /** The alternatives of the customer regex 'comagro|comagro oficina|comagro peças e serviços'. */
  const ExcludedTerms: seq<string> := ["comagro", "comagro oficina", "comagro pe\U{E7}as e servi\U{E7}os"]

  /** `astype(str)`: a missing cell reads as "nan". */
  function CellText(c: Cell): string {
    if c.Some? then c.value else "nan"
  }

  /** The cell of `row` in column `j`; a row shorter than the sheet is padded with NaN. */
  function CellAt(row: seq<Cell>, j: nat): Cell {
    if j < |row| then row[j] else None
  }

  // ---- header detection (lines 439-447 / 60-69) ----

  /** `'data' in row.astype(str).str.lower().tolist()`. */
  predicate IsHeaderRow(row: seq<Cell>, u: Unicode) {
    exists j :: 0 <= j < |row| && u.lower(CellText(row[j])) == DateColumn
  }

  /** The index of the first header row, if any. */
  function FirstHeader(grid: Grid, u: Unicode): (r: Option<nat>)
    ensures r.Some? ==> r.value < |grid| && IsHeaderRow(grid[r.value], u)
    ensures r.Some? ==> forall i :: 0 <= i < r.value ==> !IsHeaderRow(grid[i], u)
    ensures r.None? <==> forall i :: 0 <= i < |grid| ==> !IsHeaderRow(grid[i], u)
  {
    if grid == [] then None
    else if IsHeaderRow(grid[0], u) then Some(0)
    else
      var rest := FirstHeader(grid[1..], u);
      assert forall i :: 0 < i < |grid| ==> grid[i] == grid[1..][i - 1];
      if rest.None? then None else Some(rest.value + 1)
  }

  /** The scan of `df.iterrows()` that stops at the first header row. */
  method FindHeaderRow(grid: Grid, u: Unicode) returns (start: Option<nat>)
    ensures start == FirstHeader(grid, u)
  {
    var i := 0;
    while i < |grid|
      invariant 0 <= i <= |grid|
      invariant forall k :: 0 <= k < i ==> !IsHeaderRow(grid[k], u)
    {
      if IsHeaderRow(grid[i], u) {
        return Some(i);
      }
      i := i + 1;
    }
    return None;
  }

  // ---- column names (line 452 / 75) ----

  /** `str.strip()`, with the whitespace test taken from `u`. */
  function Strip(s: string, isSpace: char -> bool): (r: string)
    ensures r == [] || (!isSpace(r[0]) && !isSpace(r[|r| - 1]))
    decreases |s|
  {
    if s != [] && isSpace(s[0]) then Strip(s[1..], isSpace)
    else if s != [] && isSpace(s[|s| - 1]) then Strip(s[..|s| - 1], isSpace)
    else s
  }

  /** `s[i..j]` is `s` with only whitespace cut from its two ends. */
  predicate TrimmedSlice(s: string, i: nat, j: nat, isSpace: char -> bool) {
    && i <= j <= |s|
    && (forall k :: 0 <= k < i ==> isSpace(s[k]))
    && (forall k :: j <= k < |s| ==> isSpace(s[k]))
  }

  /** A trimmed slice of `s[1..]` is one of `s` when `s[0]` is whitespace. */
  lemma TrimmedSliceFront(s: string, i: nat, j: nat, isSpace: char -> bool)
    requires s != [] && isSpace(s[0]) && TrimmedSlice(s[1..], i, j, isSpace)
    ensures TrimmedSlice(s, i + 1, j + 1, isSpace) && s[i + 1..j + 1] == s[1..][i..j]
  {
    var t := s[1..];
    forall k | 0 < k < i + 1 ensures isSpace(s[k]) {
      assert s[k] == t[k - 1];
    }
    forall k | j + 1 <= k < |s| ensures isSpace(s[k]) {
      assert s[k] == t[k - 1];
    }
    assert s[i + 1..j + 1] == t[i..j] by {
      forall k | 0 <= k < j - i ensures s[i + 1..j + 1][k] == t[i..j][k] {
        assert s[i + 1 + k] == t[i + k];
      }
    }
  }

  /** A trimmed slice of `s[..|s| - 1]` is one of `s` when the last character is whitespace. */
  lemma TrimmedSliceBack(s: string, i: nat, j: nat, isSpace: char -> bool)
    requires s != [] && isSpace(s[|s| - 1]) && TrimmedSlice(s[..|s| - 1], i, j, isSpace)
    ensures TrimmedSlice(s, i, j, isSpace) && s[i..j] == s[..|s| - 1][i..j]
  {
    var t := s[..|s| - 1];
    forall k | 0 <= k < i ensures isSpace(s[k]) {
      assert s[k] == t[k];
    }
    forall k | j <= k < |s| - 1 ensures isSpace(s[k]) {
      assert s[k] == t[k];
    }
    assert s[i..j] == t[i..j] by {
      forall k | 0 <= k < j - i ensures s[i..j][k] == t[i..j][k] {
        assert s[i + k] == t[i + k];
      }
    }
  }

  /** Stripping removes whitespace at both ends and nothing else: the result is a slice of the
      input with only whitespace before and after it. */
  lemma {:induction false} StripTrims(s: string, isSpace: char -> bool)
    ensures exists i: nat, j: nat :: TrimmedSlice(s, i, j, isSpace) && Strip(s, isSpace) == s[i..j]
    decreases |s|
  {
    if s != [] && isSpace(s[0]) {
      StripTrims(s[1..], isSpace);
      var i: nat, j: nat :| TrimmedSlice(s[1..], i, j, isSpace) && Strip(s[1..], isSpace) == s[1..][i..j];
      TrimmedSliceFront(s, i, j, isSpace);
    } else if s != [] && isSpace(s[|s| - 1]) {
      StripTrims(s[..|s| - 1], isSpace);
      var i: nat, j: nat :| TrimmedSlice(s[..|s| - 1], i, j, isSpace) && Strip(s[..|s| - 1], isSpace) == s[..|s| - 1][i..j];
      TrimmedSliceBack(s, i, j, isSpace);
    } else {
      assert TrimmedSlice(s, 0, |s|, isSpace);
      assert Strip(s, isSpace) == s[0..|s|];
    }
  }

  /** The label pandas reads for the header cell in column `j`: its text, or "Unnamed: j" for a
      blank cell. */
  function RawName(header: seq<Cell>, j: nat): string
    requires j < |header|
  {
    if header[j].Some? then header[j].value else "Unnamed: " + NatText(j)
  }

  /** How many of the first `n` header cells carry the raw label `name`. */
  function CopiesBefore(header: seq<Cell>, name: string, n: nat): nat
    requires n <= |header|
  {
    if n == 0 then 0
    else CopiesBefore(header, name, n - 1) + (if RawName(header, n - 1) == name then 1 else 0)
  }

  /** pandas' de-duplicated label: the second and later copies of a raw label become
      "label.1", "label.2", and so on. */
  function Label(header: seq<Cell>, j: nat): string
    requires j < |header|
  {
    var raw := RawName(header, j);
    var c := CopiesBefore(header, raw, j);
    if c == 0 then raw else raw + "." + NatText(c)
  }

  /** `str(col).strip().lower()` for the header cell in column `j`. */
  function ColumnName(header: seq<Cell>, j: nat, u: Unicode): string
    requires j < |header|
  {
    u.lower(Strip(Label(header, j), u.isSpace))
  }

  function Columns(header: seq<Cell>, u: Unicode): seq<string> {
    seq(|header|, j requires 0 <= j < |header| => ColumnName(header, j, u))
  }

  /** `required_columns - set(df.columns)`. */
  function MissingFrom(cols: seq<string>): set<string> {
    RequiredColumns - set c | c in cols
  }

  /** The required names that two columns carry after normalisation. */
  function DuplicatedIn(cols: seq<string>): set<string> {
    set n | n in RequiredColumns && exists i, j :: 0 <= i < j < |cols| && cols[i] == n && cols[j] == n
  }

  /** No required name labels two columns, so `df[name]` is a single column. */
  predicate RequiredUnique(cols: seq<string>) {
    forall i, j :: 0 <= i < j < |cols| && cols[i] in RequiredColumns ==> cols[i] != cols[j]
  }

  /** Nothing is reported duplicated exactly when every required name labels one column. */
  lemma DuplicatedInEmpty(cols: seq<string>)
    ensures DuplicatedIn(cols) == {} <==> RequiredUnique(cols)
  {
    if !RequiredUnique(cols) {
      var i, j :| 0 <= i < j < |cols| && cols[i] in RequiredColumns && cols[i] == cols[j];
      assert cols[i] in DuplicatedIn(cols);
    }
  }

  /** The first column carrying `name`; once `DuplicatedIn` is empty it is the only one. */
  function IndexOf(cols: seq<string>, name: string): (j: nat)
    requires name in cols
    ensures j < |cols| && cols[j] == name
    ensures forall k :: 0 <= k < j ==> cols[k] != name
  {
    if cols[0] == name then 0 else 1 + IndexOf(cols[1..], name)
  }

  /** Where the five required columns are. */
  datatype Layout = Layout(date: nat, amount: nat, order: nat, seller: nat, customer: nat)

  function LayoutOf(cols: seq<string>): Layout
    requires MissingFrom(cols) == {}
  {
    assert forall c :: c in RequiredColumns ==> c in cols by {
      forall c | c in RequiredColumns ensures c in cols {
        assert c !in MissingFrom(cols);
      }
    }
    Layout(IndexOf(cols, DateColumn), IndexOf(cols, AmountColumn), IndexOf(cols, OrderColumn),
           IndexOf(cols, SellerColumn), IndexOf(cols, CustomerColumn))
  }

  // ---- row cleaning (lines 455-477 / 78-100) ----

  /** A row that `dropna(how='all')` keeps. */
  predicate NonEmptyRow(row: seq<Cell>) {
    exists j :: 0 <= j < |row| && row[j].Some?
  }

  function ParseCell<T>(parse: string -> Option<T>, c: Cell): Option<T> {
    if c.Some? then parse(c.value) else None
  }

  /** Coerce one row; `None` when its date or amount does not parse, which is the only way
      `dropna(subset=...)` drops a row once the text columns went through `astype(str)`. */
  function ToRecord(row: seq<Cell>, at: Layout, p: Parsers): Option<Record> {
    var date := ParseCell(p.toDate, CellAt(row, at.date));
    var amount := ParseCell(p.toNumber, CellAt(row, at.amount));
    if date.None? || amount.None? then None
    else Some(Record(date.value, amount.value, CellText(CellAt(row, at.order)),
                     CellText(CellAt(row, at.seller)), CellText(CellAt(row, at.customer))))
  }

  /** `df['cliente'].str.lower().str.contains('comagro|...')`. */
  predicate IsExcludedCustomer(customer: string, u: Unicode) {
    exists k :: 0 <= k < |ExcludedTerms| && Contains(u.lower(customer), ExcludedTerms[k])
  }

  function DropEmptyRows(rows: seq<seq<Cell>>): seq<seq<Cell>> {
    Filter(rows, NonEmptyRow)
  }

  function CoerceRows(rows: seq<seq<Cell>>, at: Layout, p: Parsers): seq<Record> {
    FilterMap(rows, row => ToRecord(row, at, p))
  }

  function DropExcluded(recs: seq<Record>, u: Unicode): seq<Record> {
    Filter(recs, (r: Record) => !IsExcludedCustomer(r.customer, u))
  }

  /** The three cleaning steps over a run of data rows. */
  function Cleaned(rows: seq<seq<Cell>>, at: Layout, p: Parsers, u: Unicode): seq<Record> {
    DropExcluded(CoerceRows(DropEmptyRows(rows), at, p), u)
  }

  /** The spreadsheet read below the header at index `h`, when all required columns exist. */
  function CleanRows(grid: Grid, h: nat, u: Unicode, p: Parsers): seq<Record>
    requires h < |grid| && MissingFrom(Columns(grid[h], u)) == {}
  {
    Cleaned(grid[h + 1..], LayoutOf(Columns(grid[h], u)), p, u)
  }

  /** The whole extraction, with its three error exits. */
  function Extraction(grid: Grid, u: Unicode, p: Parsers): (res: Result<seq<Record>, ExtractError>)
    ensures res == Failure(HeaderNotFound) <==> forall i :: 0 <= i < |grid| ==> !IsHeaderRow(grid[i], u)
    ensures res.Failure? && res.error.MissingColumns? ==>
      var h := FirstHeader(grid, u);
      h.Some? && res.error.missing == RequiredColumns - (set c | c in Columns(grid[h.value], u)) && res.error.missing != {}
    ensures var h := FirstHeader(grid, u);
      h.Some? && MissingFrom(Columns(grid[h.value], u)) != {} ==>
        res == Failure(MissingColumns(RequiredColumns - (set c | c in Columns(grid[h.value], u))))
    ensures var h := FirstHeader(grid, u);
      h.Some? && MissingFrom(Columns(grid[h.value], u)) == {} && DuplicatedIn(Columns(grid[h.value], u)) != {} ==>
        res == Failure(DuplicateColumns(DuplicatedIn(Columns(grid[h.value], u))))
    ensures res.Failure? && res.error.DuplicateColumns? ==>
      var h := FirstHeader(grid, u);
      h.Some? && MissingFrom(Columns(grid[h.value], u)) == {} && !RequiredUnique(Columns(grid[h.value], u))
    ensures var h := FirstHeader(grid, u);
      res.Success? <==> h.Some? && MissingFrom(Columns(grid[h.value], u)) == {} && RequiredUnique(Columns(grid[h.value], u))
  {
    match FirstHeader(grid, u)
    case None => Failure(HeaderNotFound)
    case Some(h) =>
      var missing := MissingFrom(Columns(grid[h], u));
      var duplicated := DuplicatedIn(Columns(grid[h], u));
      DuplicatedInEmpty(Columns(grid[h], u));
      if missing != {} then Failure(MissingColumns(missing))
      else if duplicated != {} then Failure(DuplicateColumns(duplicated))
      else Success(CleanRows(grid, h, u, p))
  }

  /** The extraction as the handlers run it: the header scan is a loop. */
  method Extract(grid: Grid, u: Unicode, p: Parsers) returns (res: Result<seq<Record>, ExtractError>)
    ensures res == Extraction(grid, u, p)
  {
    var start := FindHeaderRow(grid, u);
    if start.None? {
      return Failure(HeaderNotFound);
    }
    var h := start.value;
    var cols := Columns(grid[h], u);
    var missing := MissingFrom(cols);
    if missing != {} {
      return Failure(MissingColumns(missing));
    }
    var duplicated := DuplicatedIn(cols);
    if duplicated != {} {
      return Failure(DuplicateColumns(duplicated));
    }
    return Success(CleanRows(grid, h, u, p));
  }

  // ---- properties ----

  /** Every record read below header `h` names no excluded customer and is the coercion of
      a non-blank row below the header. */
  lemma CleanRowsSound(grid: Grid, h: nat, u: Unicode, p: Parsers, r: Record)
    requires h < |grid| && MissingFrom(Columns(grid[h], u)) == {}
    requires r in CleanRows(grid, h, u, p)
    ensures !IsExcludedCustomer(r.customer, u)
    ensures exists i :: h < i < |grid| && NonEmptyRow(grid[i]) && ToRecord(grid[i], LayoutOf(Columns(grid[h], u)), p) == Some(r)
  {
    var at := LayoutOf(Columns(grid[h], u));
    var data := grid[h + 1..];
    var kept := DropEmptyRows(data);
    assert r in CoerceRows(kept, at, p);
    var row :| row in kept && ToRecord(row, at, p) == Some(r);
    var k :| 0 <= k < |data| && data[k] == row;
    assert grid[h + 1 + k] == row;
  }

  /** Every record the extraction returns names no excluded customer and is the coercion of
      a non-blank row below the header. */
  lemma ExtractedRowsAreClean(grid: Grid, u: Unicode, p: Parsers, r: Record)
    requires Extraction(grid, u, p).Success? && r in Extraction(grid, u, p).value
    ensures !IsExcludedCustomer(r.customer, u)
    ensures var h := FirstHeader(grid, u).value;
      exists i :: h < i < |grid| && NonEmptyRow(grid[i]) && ToRecord(grid[i], LayoutOf(Columns(grid[h], u)), p) == Some(r)
  {
    CleanRowsSound(grid, FirstHeader(grid, u).value, u, p, r);
  }

  /** A coerced record carries the parsed date and amount and the text of the other three
      required cells. */
  lemma ToRecordFields(row: seq<Cell>, at: Layout, p: Parsers)
    ensures ToRecord(row, at, p).Some? <==>
      ParseCell(p.toDate, CellAt(row, at.date)).Some? && ParseCell(p.toNumber, CellAt(row, at.amount)).Some?
    ensures ToRecord(row, at, p).Some? ==>
      var r := ToRecord(row, at, p).value;
      && ParseCell(p.toDate, CellAt(row, at.date)) == Some(r.date)
      && ParseCell(p.toNumber, CellAt(row, at.amount)) == Some(r.amount)
      && r.orderNumber == CellText(CellAt(row, at.order))
      && r.seller == CellText(CellAt(row, at.seller))
      && r.customer == CellText(CellAt(row, at.customer))
  {
  }

  /** Conversely, every non-blank row below the header whose date and amount parse and whose
      customer is not excluded yields a record in the result. */
  lemma ExtractionKeepsGoodRows(grid: Grid, u: Unicode, p: Parsers, i: nat)
    requires Extraction(grid, u, p).Success?
    requires FirstHeader(grid, u).value < i < |grid|
    requires var at := LayoutOf(Columns(grid[FirstHeader(grid, u).value], u));
      ToRecord(grid[i], at, p).Some? && !IsExcludedCustomer(ToRecord(grid[i], at, p).value.customer, u)
    ensures ToRecord(grid[i], LayoutOf(Columns(grid[FirstHeader(grid, u).value], u)), p).value
              in Extraction(grid, u, p).value
  {
    var h := FirstHeader(grid, u).value;
    var at := LayoutOf(Columns(grid[h], u));
    var row := grid[i];
    var data := grid[h + 1..];
    assert data[i - h - 1] == row;
    assert NonEmptyRow(row);
    assert row in DropEmptyRows(data);
  }

  /** A data row that survives all three cleaning steps. */
  predicate KeptRow(row: seq<Cell>, at: Layout, p: Parsers, u: Unicode) {
    NonEmptyRow(row) && ToRecord(row, at, p).Some? && !IsExcludedCustomer(ToRecord(row, at, p).value.customer, u)
  }

  /** Cleaning a row in front of others yields that row's record, if it is kept, in front of
      the others' records. */
  lemma CleanedCons(x: seq<Cell>, rows: seq<seq<Cell>>, at: Layout, p: Parsers, u: Unicode)
    ensures Cleaned([x] + rows, at, p, u)
         == (if KeptRow(x, at, p, u) then [ToRecord(x, at, p).value] else []) + Cleaned(rows, at, p, u)
  {
    var s := [x] + rows;
    assert s[0] == x && s[1..] == rows;
    var d := DropEmptyRows(rows);
    if NonEmptyRow(x) {
      assert DropEmptyRows(s) == [x] + d;
      assert ([x] + d)[0] == x && ([x] + d)[1..] == d;
      var c := CoerceRows(d, at, p);
      if ToRecord(x, at, p).Some? {
        var r := ToRecord(x, at, p).value;
        assert CoerceRows([x] + d, at, p) == [r] + c;
        assert ([r] + c)[0] == r && ([r] + c)[1..] == c;
      } else {
        assert CoerceRows([x] + d, at, p) == c;
      }
    } else {
      assert DropEmptyRows(s) == d;
    }
  }

  /** Record k of `r` is the coercion of row `idx[k]` of `grid`. */
  predicate RecordsAt(grid: Grid, at: Layout, p: Parsers, idx: seq<nat>, r: seq<Record>) {
    |idx| == |r| && forall k :: 0 <= k < |idx| ==> idx[k] < |grid| && ToRecord(grid[idx[k]], at, p) == Some(r[k])
  }

  lemma RecordsAtCons(grid: Grid, at: Layout, p: Parsers, i: nat, idx: seq<nat>, r: seq<Record>)
    requires i < |grid| && ToRecord(grid[i], at, p).Some? && RecordsAt(grid, at, p, idx, r)
    ensures RecordsAt(grid, at, p, [i] + idx, [ToRecord(grid[i], at, p).value] + r)
  {
    var r1, idx1 := [ToRecord(grid[i], at, p).value] + r, [i] + idx;
    forall k | 0 < k < |idx1| ensures idx1[k] < |grid| && ToRecord(grid[idx1[k]], at, p) == Some(r1[k]) {
      assert idx1[k] == idx[k - 1] && r1[k] == r[k - 1];
    }
  }

  lemma {:induction false} CleanedInOrder(grid: Grid, at: Layout, p: Parsers, u: Unicode, from: nat)
    requires from <= |grid|
    ensures RecordsAt(grid, at, p, KeptIndices(grid, row => KeptRow(row, at, p, u), from), Cleaned(grid[from..], at, p, u))
    decreases |grid| - from
  {
    if from < |grid| {
      CleanedInOrder(grid, at, p, u, from + 1);
      assert grid[from..] == [grid[from]] + grid[from + 1..];
      CleanedCons(grid[from], grid[from + 1..], at, p, u);
      var r', idx' := Cleaned(grid[from + 1..], at, p, u), KeptIndices(grid, row => KeptRow(row, at, p, u), from + 1);
      if KeptRow(grid[from], at, p, u) {
        assert KeptIndices(grid, row => KeptRow(row, at, p, u), from) == [from] + idx';
        RecordsAtCons(grid, at, p, from, idx', r');
      } else {
        assert KeptIndices(grid, row => KeptRow(row, at, p, u), from) == idx';
      }
    }
  }

  /** The records read below header `h` are the kept rows' records, one per kept row and in
      sheet order: `idx` lists the kept rows in increasing order and record k comes from row
      `idx[k]`. */
  lemma CleanRowsInOrder(grid: Grid, h: nat, u: Unicode, p: Parsers)
    requires h < |grid| && MissingFrom(Columns(grid[h], u)) == {}
    ensures var at := LayoutOf(Columns(grid[h], u));
      var idx := KeptIndices(grid, row => KeptRow(row, at, p, u), h + 1);
      && Increasing(idx)
      && (forall i :: h < i < |grid| ==> (i in idx <==> KeptRow(grid[i], at, p, u)))
      && |idx| == |CleanRows(grid, h, u, p)|
      && forall k :: 0 <= k < |idx| ==> ToRecord(grid[idx[k]], at, p) == Some(CleanRows(grid, h, u, p)[k])
  {
    var at := LayoutOf(Columns(grid[h], u));
    KeptIndicesIncrease(grid, row => KeptRow(row, at, p, u), h + 1);
    KeptIndicesExact(grid, row => KeptRow(row, at, p, u), h + 1);
    CleanedInOrder(grid, at, p, u, h + 1);
  }

  /** `dropna(how='all')` changes nothing the later steps keep: a blank row has no date. */
  lemma DropEmptyRowsIsRedundant(rows: seq<seq<Cell>>, at: Layout, p: Parsers)
    ensures CoerceRows(DropEmptyRows(rows), at, p) == CoerceRows(rows, at, p)
  {
    forall row | row in rows && !NonEmptyRow(row) ensures ToRecord(row, at, p).None? {
      assert CellAt(row, at.date).None?;
    }
    FilterMapIgnoresDropped(rows, NonEmptyRow, row => ToRecord(row, at, p));
  }

  /** The three excluded terms all start with "comagro", so the customer filter is exactly
      "the lower-cased customer contains 'comagro'". */
  lemma ExcludedIffContainsComagro(customer: string, u: Unicode)
    ensures IsExcludedCustomer(customer, u) <==> Contains(u.lower(customer), "comagro")
  {
    var c := u.lower(customer);
    if IsExcludedCustomer(customer, u) {
      var k :| 0 <= k < |ExcludedTerms| && Contains(c, ExcludedTerms[k]);
      assert ExcludedTerms[k][..7] == "comagro";
      ContainsPrefix(c, ExcludedTerms[k], 7);
    }
    if Contains(c, "comagro") {
      assert Contains(c, ExcludedTerms[0]);
    }
  }

  /** A text database that is right for lower-case ASCII headers: lower-casing changes nothing
      and only ' ' is whitespace. */
  const PlainText: Unicode := Unicode(s => s, s => s, s => s, c => c == ' ', s => s, c => false)

  /** A raw label no earlier header cell carries keeps its text. */
  lemma DistinctLabel(header: seq<Cell>, j: nat)
    requires j < |header|
    requires forall k :: 0 <= k < j ==> RawName(header, k) != RawName(header, j)
    ensures Label(header, j) == RawName(header, j)
  {
    NoCopiesBefore(header, RawName(header, j), j);
  }

  lemma {:induction false} NoCopiesBefore(header: seq<Cell>, name: string, n: nat)
    requires n <= |header|
    requires forall k :: 0 <= k < n ==> RawName(header, k) != name
    ensures CopiesBefore(header, name, n) == 0
  {
    if n > 0 {
      NoCopiesBefore(header, name, n - 1);
    }
  }

  /** A header row whose second cell is " data". */
  const LookalikeHeader: seq<Cell> :=
    [Some(DateColumn), Some(" data"), Some(AmountColumn), Some(OrderColumn), Some(SellerColumn), Some(CustomerColumn)]

  /** A header row whose first two cells are both "data". */
  const RepeatedHeader: seq<Cell> :=
    [Some(DateColumn), Some(DateColumn), Some(AmountColumn), Some(OrderColumn), Some(SellerColumn), Some(CustomerColumn)]

  /** Under `PlainText` a label with no space at its ends is its own column name. */
  lemma PlainName(s: string)
    requires s != [] && s[0] != ' ' && s[|s| - 1] != ' '
    ensures PlainText.lower(Strip(s, PlainText.isSpace)) == s
  {
  }

  lemma LookalikeLabels()
    ensures Label(LookalikeHeader, 0) == DateColumn
    ensures Label(LookalikeHeader, 1) == " data"
    ensures Label(LookalikeHeader, 2) == AmountColumn
    ensures Label(LookalikeHeader, 3) == OrderColumn
    ensures Label(LookalikeHeader, 4) == SellerColumn
    ensures Label(LookalikeHeader, 5) == CustomerColumn
  {
    DistinctLabel(LookalikeHeader, 1);
    DistinctLabel(LookalikeHeader, 2);
    DistinctLabel(LookalikeHeader, 3);
    DistinctLabel(LookalikeHeader, 4);
    DistinctLabel(LookalikeHeader, 5);
  }

  lemma RepeatedLabels()
    ensures Label(RepeatedHeader, 0) == DateColumn
    ensures Label(RepeatedHeader, 1) == "data.1"
    ensures Label(RepeatedHeader, 2) == AmountColumn
    ensures Label(RepeatedHeader, 3) == OrderColumn
    ensures Label(RepeatedHeader, 4) == SellerColumn
    ensures Label(RepeatedHeader, 5) == CustomerColumn
  {
    assert CopiesBefore(RepeatedHeader, DateColumn, 1) == 1;
    assert NatText(1) == "1";
    DistinctLabel(RepeatedHeader, 2);
    DistinctLabel(RepeatedHeader, 3);
    DistinctLabel(RepeatedHeader, 4);
    DistinctLabel(RepeatedHeader, 5);
  }

  /** The names the two example headers normalise to. */
  const LookalikeNames: seq<string> := [DateColumn, DateColumn, AmountColumn, OrderColumn, SellerColumn, CustomerColumn]
  const RepeatedNames: seq<string> := [DateColumn, "data.1", AmountColumn, OrderColumn, SellerColumn, CustomerColumn]

  lemma LookalikeColumn(k: nat)
    requires k < 6
    ensures ColumnName(LookalikeHeader, k, PlainText) == LookalikeNames[k]
  {
    LookalikeLabels();
    if k == 1 {
      assert Strip(" data", PlainText.isSpace) == Strip(DateColumn, PlainText.isSpace);
    }
    PlainName(LookalikeNames[k]);
  }

  lemma RepeatedColumn(k: nat)
    requires k < 6
    ensures ColumnName(RepeatedHeader, k, PlainText) == RepeatedNames[k]
  {
    RepeatedLabels();
    PlainName(RepeatedNames[k]);
  }

  lemma LookalikeColumns()
    ensures Columns(LookalikeHeader, PlainText) == LookalikeNames
  {
    forall k | 0 <= k < 6 ensures Columns(LookalikeHeader, PlainText)[k] == LookalikeNames[k] {
      LookalikeColumn(k);
    }
  }

  lemma RepeatedColumns()
    ensures Columns(RepeatedHeader, PlainText) == RepeatedNames
  {
    forall k | 0 <= k < 6 ensures Columns(RepeatedHeader, PlainText)[k] == RepeatedNames[k] {
      RepeatedColumn(k);
    }
  }

  /** Only "data" labels two of the lookalike columns. */
  lemma LookalikeDuplicates()
    ensures DuplicatedIn(LookalikeNames) == {DateColumn}
  {
    var cols := LookalikeNames;
    var lengths := [4, 4, 11, 15, 8, 7];
    assert forall k :: 0 <= k < 6 ==> |cols[k]| == lengths[k];
    assert DateColumn in DuplicatedIn(cols) by { assert cols[0] == cols[1]; }
    forall n | n in DuplicatedIn(cols) ensures n == DateColumn {
      var i, j :| 0 <= i < j < |cols| && cols[i] == n && cols[j] == n;
      assert lengths[i] == lengths[j];
    }
  }

  /** With "data.1" in place every required name labels one column. */
  lemma RepeatedUnique()
    ensures RequiredUnique(RepeatedNames)
  {
    var cols := RepeatedNames;
    var lengths := [4, 6, 11, 15, 8, 7];
    assert forall k :: 0 <= k < 6 ==> |cols[k]| == lengths[k];
  }

  /** Both example headers carry every required name. */
  lemma ExampleNamesComplete()
    ensures MissingFrom(LookalikeNames) == {} && MissingFrom(RepeatedNames) == {}
  {
    assert LookalikeNames[0] == DateColumn && LookalikeNames[2] == AmountColumn;
    assert RepeatedNames[0] == DateColumn && RepeatedNames[2] == AmountColumn;
  }

  /** "data" and " data" are two different pandas labels, but both normalise to "data": the
      sheet is refused. */
  lemma LookalikeHeaderRefused(p: Parsers)
    ensures Extraction([LookalikeHeader], PlainText, p) == Failure(DuplicateColumns({DateColumn}))
  {
    assert PlainText.lower(CellText(LookalikeHeader[0])) == DateColumn;
    assert FirstHeader([LookalikeHeader], PlainText) == Some(0);
    LookalikeColumns();
    LookalikeDuplicates();
    ExampleNamesComplete();
  }

  /** Two raw-identical "data" cells are labelled "data" and "data.1" by pandas, so the sheet
      is read. */
  lemma RepeatedHeaderRenamed(p: Parsers)
    ensures Columns(RepeatedHeader, PlainText)[1] == "data.1"
    ensures Extraction([RepeatedHeader], PlainText, p).Success?
  {
    assert PlainText.lower(CellText(RepeatedHeader[0])) == DateColumn;
    assert FirstHeader([RepeatedHeader], PlainText) == Some(0);
    RepeatedColumns();
    RepeatedUnique();
    ExampleNamesComplete();
  }
}
