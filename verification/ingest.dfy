/**
 * The ingestion request: column-name normalisation, hash and id attachment, the staging append,
 * the validation pass over the whole staging table, the conditional promotion of the rows the
 * validation did not flag (with the derived sale price and margin), and the response counts.
 *
 * The uploaded file arrives already split into a header and rows of typed cells; SHA-256 and
 * uuid7 are the parameters `hasher` and `rowId`, and the validation library is `validate`.
 */
module Ingest {
  import opened Wrappers
  import opened Text
  import opened Records
  import opened Validation
  import opened Db

  // ---------------------------------------------------------------------------------------------
  // Column names

  /** `col.lower().strip().replace(" ", "_").replace("-", "_")` */
  function NormalizeColumn(col: string): (r: string)
    ensures |r| <= |col|
  {
    Underscored(Strip(Lower(col)))
  }

  /** Spaces and hyphens become underscores. */
  function Underscored(t: string): (r: string)
    ensures |r| == |t|
  {
    ReplaceAll(ReplaceAll(t, " ", "_"), "-", "_")
  }

  lemma UnderscoredPointwise(t: string)
    ensures |Underscored(t)| == |t|
    ensures forall i :: 0 <= i < |t| ==> Underscored(t)[i] == if t[i] == ' ' || t[i] == '-' then '_' else t[i]
  {
    ReplaceCharPointwise(t, ' ', '_');
    ReplaceCharPointwise(ReplaceAll(t, " ", "_"), '-', '_');
  }

  /** A stripped piece of a lower-cased name is still lower-case. */
  lemma StripKeepsLower(s: string)
    requires NoUpper(s)
    ensures NoUpper(Strip(s))
  {
    var t := Strip(s);
    var i: nat :| i <= |s| && OccursAt(s, t, i);
    forall j | 0 <= j < |t| ensures !IsUpper(t[j]) {
      assert t[j] == s[i + j];
    }
  }

  /**
   * A normalised column name has no upper-case letter, no space and no hyphen, is no longer
   * than the original, and neither starts nor ends with white space.
   */
  lemma NormalizedShape(col: string)
    ensures var r := NormalizeColumn(col);
      && NoUpper(r) && Lacks(r, ' ') && Lacks(r, '-') && |r| <= |col|
      && (r == [] || (!IsSpace(r[0]) && !IsSpace(r[|r| - 1])))
  {
    var t := Strip(Lower(col));
    StripKeepsLower(Lower(col));
    UnderscoredShape(t);
  }

  lemma UnderscoredShape(t: string)
    requires NoUpper(t)
    requires t == [] || (!IsSpace(t[0]) && !IsSpace(t[|t| - 1]))
    ensures var r := Underscored(t);
      && NoUpper(r) && Lacks(r, ' ') && Lacks(r, '-') && |r| == |t|
      && (r == [] || (!IsSpace(r[0]) && !IsSpace(r[|r| - 1])))
  {
    var r := Underscored(t);
    UnderscoredPointwise(t);
    forall i | 0 <= i < |r| ensures !IsUpper(r[i]) && r[i] != ' ' && r[i] != '-' {
    }
    if r != [] {
      assert r[0] == t[0] || r[0] == '_';
      assert r[|r| - 1] == t[|t| - 1] || r[|r| - 1] == '_';
    }
  }

  /** Normalising a normalised name changes nothing. */
  lemma NormalizeIdempotent(col: string)
    ensures NormalizeColumn(NormalizeColumn(col)) == NormalizeColumn(col)
  {
    var r := NormalizeColumn(col);
    NormalizedShape(col);
    LowerOfLowered(r);
    StripOfStripped(r);
    UnderscoredPointwise(r);
    assert Lower(r) == r;
    assert Strip(r) == r;
    assert Underscored(r) == r;
  }

  function NormalizeHeader(header: seq<string>): (r: seq<string>)
    ensures |r| == |header|
    ensures forall i :: 0 <= i < |header| ==> r[i] == NormalizeColumn(header[i])
  {
    seq(|header|, i requires 0 <= i < |header| => NormalizeColumn(header[i]))
  }

  // ---------------------------------------------------------------------------------------------
  // From the uploaded file to staging rows

  /** The uploaded file: its header line and its rows of cells, in file order. */
  datatype Batch = Batch(header: seq<string>, rows: seq<seq<Cell>>)

  /** The column the CSV reader is told to parse as dates, spelled as in the file. */
  const DateHeader := "Date Of Sale"

  /** The columns the staging table takes from the file, after `id` and `hash`, in table order. */
  const BusinessColumns: seq<string> := [
    "store_name", "item_code", "item_barcode", "supplier", "description", "category",
    "department", "sub_department", "section", "quantity", "total_sales", "rrp", "date_of_sale"]

  /** The position of the first column called `name`, if any. */
  function IndexOf(columns: seq<string>, name: string): (r: Option<nat>)
    ensures r.None? <==> name !in columns
    ensures r.Some? ==> r.value < |columns| && columns[r.value] == name && name !in columns[..r.value]
    decreases |columns|
  {
    if columns == [] then None
    else if columns[0] == name then Some(0)
    else
      match IndexOf(columns[1..], name)
      case None => None
      case Some(i) => assert columns[1..][..i] == columns[1..i + 1]; Some(i + 1)
  }

  /** The first of `names` not among the columns, if any. */
  function FirstMissing(columns: seq<string>, names: seq<string>): (r: Option<string>)
    ensures r.None? <==> forall n :: n in names ==> n in columns
    ensures r.Some? ==> r.value in names && r.value !in columns
    decreases |names|
  {
    if names == [] then None
    else if names[0] !in columns then Some(names[0])
    else FirstMissing(columns, names[1..])
  }

  /**
   * Every business column occurs exactly once in the header, and `id` and `hash` at most once:
   * the hash and id assignments write every column of that name, and the selection then
   * returns all of them.
   */
  predicate Resolvable(columns: seq<string>) {
    && (forall j :: 0 <= j < |BusinessColumns| ==> multiset(columns)[BusinessColumns[j]] == 1)
    && multiset(columns)["id"] <= 1
    && multiset(columns)["hash"] <= 1
  }

  /** A missing business column makes the header unresolvable. */
  lemma MissingUnresolvable(columns: seq<string>, name: string)
    requires name in BusinessColumns && name !in columns
    ensures !Resolvable(columns)
  {
    var j :| 0 <= j < |BusinessColumns| && BusinessColumns[j] == name;
    assert multiset(columns)[BusinessColumns[j]] == 0;
  }

  function Positions(columns: seq<string>): (r: seq<nat>)
    requires Resolvable(columns)
    ensures |r| == |BusinessColumns|
    ensures forall j :: 0 <= j < |BusinessColumns| ==> r[j] < |columns| && columns[r[j]] == BusinessColumns[j]
  {
    seq(|BusinessColumns|, j requires 0 <= j < |BusinessColumns| && Resolvable(columns) =>
      assert multiset(columns)[BusinessColumns[j]] == 1;
      IndexOf(columns, BusinessColumns[j]).value)
  }

  /**
   * Where each business column sits in the normalised header. `store_name` is looked up first,
   * by the id attachment: missing, it is a `KeyError`; repeated, the lookup yields one id per
   * `store_name` column rather than one per row, and the assignment of the id column fails.
   * Then the column selection fails on the first missing business column. Any other business
   * column, or `id` or `hash`, present more than once makes the selection wider than the table,
   * and the insert fails.
   */
  function ResolveColumns(columns: seq<string>): (r: Result<seq<nat>, Fault>)
    ensures r.Failure? <==> !Resolvable(columns)
    ensures "store_name" !in columns ==> r == Failure(KeyError("store_name"))
    ensures multiset(columns)["store_name"] > 1 ==> r == Failure(ValueError)
    ensures multiset(columns)["id"] > 1 || multiset(columns)["hash"] > 1 ==> r.Failure?
    ensures multiset(columns)["store_name"] == 1 && !Resolvable(columns) ==>
      if forall n :: n in BusinessColumns ==> n in columns then r == Failure(InsertError)
      else r.Failure? && r.error.KeyError? && r.error.column in BusinessColumns && r.error.column !in columns
    ensures r.Success? ==>
      && |r.value| == |BusinessColumns|
      && forall j :: 0 <= j < |BusinessColumns| ==>
           r.value[j] < |columns| && columns[r.value[j]] == BusinessColumns[j]
  {
    if "store_name" !in columns then
      MissingUnresolvable(columns, "store_name");
      Failure(KeyError("store_name"))
    else if multiset(columns)["store_name"] > 1 then
      assert BusinessColumns[0] == "store_name";
      Failure(ValueError)
    else
      match FirstMissing(columns, BusinessColumns)
      case Some(n) => MissingUnresolvable(columns, n); Failure(KeyError(n))
      case None => if Resolvable(columns) then Success(Positions(columns)) else Failure(InsertError)
  }

  /**
   * A value for a text column, as the engine casts it on insert: text as it is, an integer in
   * decimal, a float as the engine renders it (`render`; a numeric column with a blank cell is
   * read as floats). Dates come only from the date column, so a date never reaches a text column.
   */
  function AsText(c: Cell, render: real -> string): (r: Result<Option<string>, Fault>)
    ensures r.Success? <==> !c.Day?
    ensures c.Missing? ==> r == Success(None)
    ensures c.Text? ==> r == Success(Some(c.text))
    ensures c.Int? ==> r == Success(Some(IntToString(c.whole)))
    ensures c.Num? ==> r == Success(Some(render(c.num)))
  {
    match c
    case Missing => Success(None)
    case Text(s) => Success(Some(s))
    case Int(n) => Success(Some(IntToString(n)))
    case Num(x) => Success(Some(render(x)))
    case Day(_) => Failure(InsertError)
  }

  /** 2^127: the `HUGEINT` column holds the integers in [-2^127, 2^127). */
  const HugeIntBound: int := 0x8000_0000_0000_0000_0000_0000_0000_0000

  predicate InHugeInt(n: int) {
    -HugeIntBound <= n < HugeIntBound
  }

  /** The engine's float-to-integer cast: the nearest integer, a tie going to the even one. */
  function RoundHalfEven(x: real): (n: int)
    ensures -0.5 <= n as real - x <= 0.5
    ensures (n as real - x == 0.5 || x - n as real == 0.5) ==> n % 2 == 0
  {
    var f := x.Floor;
    var d := x - f as real;
    if d < 0.5 then f
    else if d > 0.5 then f + 1
    else if f % 2 == 0 then f
    else f + 1
  }

  /** A whole float rounds to itself, and a weighed 1.5 units is stored as 2, as is 2.5. */
  lemma RoundingExamples(x: real)
    requires x == x.Floor as real
    ensures RoundHalfEven(x) == x.Floor
    ensures RoundHalfEven(1.5) == 2 && RoundHalfEven(2.5) == 2 && RoundHalfEven(-0.5) == 0
  {
    var n := RoundHalfEven(x);
    assert -1 < n - x.Floor < 1 by {
      assert -0.5 <= (n - x.Floor) as real <= 0.5;
    }
  }

  /**
   * A value for the `HUGEINT` `quantity` column, as the engine casts it on insert: an integer as
   * it is, a float rounded to the nearest integer; a value outside the column's range, or text
   * or a date, does not fit.
   */
  function AsCount(c: Cell): (r: Result<Option<int>, Fault>)
    ensures r.Success? <==> c.Missing? || (c.Int? && InHugeInt(c.whole)) || (c.Num? && InHugeInt(RoundHalfEven(c.num)))
    ensures c.Missing? ==> r == Success(None)
    ensures r.Success? && c.Int? ==> r.value == Some(c.whole)
    ensures r.Success? && c.Num? ==> r.value.Some? && -0.5 <= r.value.value as real - c.num <= 0.5
  {
    match c
    case Missing => Success(None)
    case Int(n) => if InHugeInt(n) then Success(Some(n)) else Failure(InsertError)
    case Num(x) =>
      var n := RoundHalfEven(x);
      if InHugeInt(n) then Success(Some(n)) else Failure(InsertError)
    case _ => Failure(InsertError)
  }

  /** A value for a `DOUBLE` column. */
  function AsAmount(c: Cell): (r: Result<Option<real>, Fault>)
    ensures r.Success? <==> c.Missing? || c.Int? || c.Num?
    ensures r.Success? && r.value.Some? ==> (c.Int? && r.value.value == c.whole as real) || (c.Num? && r.value.value == c.num)
  {
    match c
    case Missing => Success(None)
    case Int(n) => Success(Some(n as real))
    case Num(x) => Success(Some(x))
    case _ => Failure(InsertError)
  }

  /** A value for the `DATE` column: the reader has already parsed the column to dates. */
  function AsDate(c: Cell): (r: Result<Option<Date>, Fault>)
    ensures r.Success? <==> c.Missing? || c.Day?
    ensures r.Success? && r.value.Some? ==> c == Day(r.value.value)
  {
    match c
    case Missing => Success(None)
    case Day(d) => Success(Some(d))
    case _ => Failure(InsertError)
  }

  /** The text business columns (the first nine) of one line, from position `from` on. */
  function TextColumns(raw: seq<Cell>, at: seq<nat>, from: nat, render: real -> string): (r: Result<seq<Option<string>>, Fault>)
    requires |at| == |BusinessColumns| && from <= 9
    ensures r.Success? <==> forall j :: from <= j < 9 ==> AsText(CellAt(raw, at[j]), render).Success?
    ensures r.Success? ==>
      && |r.value| == 9 - from
      && forall j :: from <= j < 9 ==> r.value[j - from] == AsText(CellAt(raw, at[j]), render).value
    ensures r.Failure? ==> r.error == InsertError
    decreases 9 - from
  {
    if from == 9 then Success([])
    else
      var first :- AsText(CellAt(raw, at[from]), render);
      var rest :- TextColumns(raw, at, from + 1, render);
      Success([first] + rest)
  }

  /**
   * The staging row for one line of the file, given the positions of the business columns:
   * each column's cell cast to the column's type, or the insert error when one does not fit.
   */
  function StageRow(raw: seq<Cell>, at: seq<nat>, id: Id, hash: string, render: real -> string): (r: Result<StagingRow, Fault>)
    requires |at| == |BusinessColumns|
    ensures r.Success? <==>
      && (forall j :: 0 <= j < 9 ==> AsText(CellAt(raw, at[j]), render).Success?)
      && AsCount(CellAt(raw, at[9])).Success?
      && AsAmount(CellAt(raw, at[10])).Success? && AsAmount(CellAt(raw, at[11])).Success?
      && AsDate(CellAt(raw, at[12])).Success?
    ensures r.Success? ==>
      && r.value.id == id && r.value.hash == hash
      && r.value.storeName == AsText(CellAt(raw, at[0]), render).value
      && r.value.itemCode == AsText(CellAt(raw, at[1]), render).value
      && r.value.itemBarcode == AsText(CellAt(raw, at[2]), render).value
      && r.value.supplier == AsText(CellAt(raw, at[3]), render).value
      && r.value.description == AsText(CellAt(raw, at[4]), render).value
      && r.value.category == AsText(CellAt(raw, at[5]), render).value
      && r.value.department == AsText(CellAt(raw, at[6]), render).value
      && r.value.subDepartment == AsText(CellAt(raw, at[7]), render).value
      && r.value.section == AsText(CellAt(raw, at[8]), render).value
      && r.value.quantity == AsCount(CellAt(raw, at[9])).value
      && r.value.totalSales == AsAmount(CellAt(raw, at[10])).value
      && r.value.rrp == AsAmount(CellAt(raw, at[11])).value
      && r.value.dateOfSale == AsDate(CellAt(raw, at[12])).value
    ensures r.Failure? ==> r.error == InsertError
  {
    var t :- TextColumns(raw, at, 0, render);
    var quantity :- AsCount(CellAt(raw, at[9]));
    var totalSales :- AsAmount(CellAt(raw, at[10]));
    var rrp :- AsAmount(CellAt(raw, at[11]));
    var dateOfSale :- AsDate(CellAt(raw, at[12]));
    Success(StagingRow(id, hash, t[0], t[1], t[2], t[3], t[4], t[5], t[6], t[7], t[8],
      quantity, totalSales, rrp, dateOfSale))
  }

  /**
   * All of `stage(0)`, ..., `stage(n - 1)` in order, or the first failure among them: the
   * insert takes the whole batch or nothing.
   */
  function AllOrNothing<T>(n: nat, stage: nat -> Result<T, Fault>): (r: Result<seq<T>, Fault>)
    ensures r.Success? <==> forall k :: 0 <= k < n ==> stage(k).Success?
    ensures r.Success? ==> |r.value| == n && forall k :: 0 <= k < n ==> r.value[k] == stage(k).value
    ensures r.Failure? ==> exists k :: 0 <= k < n && stage(k) == Failure(r.error)
  {
    if n == 0 then Success([])
    else
      var done := AllOrNothing(n - 1, stage);
      if done.Failure? then done
      else if stage(n - 1).Failure? then Failure(stage(n - 1).error)
      else Success(done.value + [stage(n - 1).value])
  }

  /** The staging rows for the lines of the file: line k gets the k-th fresh id and the hash of its own cells. */
  function StageRows(rows: seq<seq<Cell>>, at: seq<nat>, hasher: seq<Cell> -> string, rowId: nat -> Id, render: real -> string)
    : (r: Result<seq<StagingRow>, Fault>)
    requires |at| == |BusinessColumns|
    ensures r.Success? <==> forall k {:trigger StageRow(rows[k], at, rowId(k), hasher(rows[k]), render)} ::
      0 <= k < |rows| ==> StageRow(rows[k], at, rowId(k), hasher(rows[k]), render).Success?
    ensures r.Failure? ==> r.error == InsertError
    ensures r.Success? ==>
      && |r.value| == |rows|
      && forall k {:trigger StageRow(rows[k], at, rowId(k), hasher(rows[k]), render)} ::
           0 <= k < |rows| ==> r.value[k] == StageRow(rows[k], at, rowId(k), hasher(rows[k]), render).value
  {
    var stage := (k: nat) => if k < |rows| then StageRow(rows[k], at, rowId(k), hasher(rows[k]), render) else Failure(InsertError);
    assert forall k :: 0 <= k < |rows| ==> stage(k) == StageRow(rows[k], at, rowId(k), hasher(rows[k]), render);
    AllOrNothing(|rows|, stage)
  }

  /**
   * Everything the request does before touching the database: the reader's date-column check,
   * header normalisation, column resolution and the conversion of every line.
   */
  function Prepare(batch: Batch, hasher: seq<Cell> -> string, rowId: nat -> Id, render: real -> string)
    : (r: Result<seq<StagingRow>, Fault>)
    ensures DateHeader !in batch.header ==> r == Failure(MissingDateColumn)
    ensures r.Success? ==>
      && |r.value| == |batch.rows|
      && forall k :: 0 <= k < |batch.rows| ==> r.value[k].id == rowId(k) && r.value[k].hash == hasher(batch.rows[k])
  {
    if DateHeader !in batch.header then Failure(MissingDateColumn)
    else
      var at :- ResolveColumns(NormalizeHeader(batch.header));
      var r := StageRows(batch.rows, at, hasher, rowId, render);
      assert r.Success? ==> forall k :: 0 <= k < |batch.rows| ==>
        r.value[k] == StageRow(batch.rows[k], at, rowId(k), hasher(batch.rows[k]), render).value;
      r
  }

  /**
   * With the date column present, the batch fails with the column-resolution fault, or it is the
   * staging rows of the lines at the resolved positions (line k becoming `StageRow` of its cells,
   * or the whole batch failing with the insert error).
   */
  lemma PrepareStages(batch: Batch, hasher: seq<Cell> -> string, rowId: nat -> Id, render: real -> string)
    requires DateHeader in batch.header
    ensures match ResolveColumns(NormalizeHeader(batch.header))
      case Failure(e) => Prepare(batch, hasher, rowId, render) == Failure(e)
      case Success(at) => Prepare(batch, hasher, rowId, render) == StageRows(batch.rows, at, hasher, rowId, render)
  {
  }

  /** Lines with the same cells get the same hash, whatever their ids. */
  lemma EqualLinesEqualHashes(batch: Batch, hasher: seq<Cell> -> string, rowId: nat -> Id, render: real -> string, i: nat, j: nat)
    requires Prepare(batch, hasher, rowId, render).Success?
    requires i < |batch.rows| && j < |batch.rows| && batch.rows[i] == batch.rows[j]
    ensures Prepare(batch, hasher, rowId, render).value[i].hash == Prepare(batch, hasher, rowId, render).value[j].hash
  {
  }

  /**
   * Ids drawn from a generator that never repeats itself and never returns an id already in
   * staging give a batch the primary key accepts.
   */
  lemma FreshIdsFit(staging: seq<StagingRow>, batch: Batch, hasher: seq<Cell> -> string, rowId: nat -> Id, render: real -> string)
    requires IdsUnique(staging) && Prepare(batch, hasher, rowId, render).Success?
    requires forall a, b :: 0 <= a < b < |batch.rows| ==> rowId(a) != rowId(b)
    requires forall a, i :: 0 <= a < |batch.rows| && 0 <= i < |staging| ==> rowId(a) != staging[i].id
    ensures IdsUnique(staging + Prepare(batch, hasher, rowId, render).value)
  {
    FreshIdsAccepted(staging, Prepare(batch, hasher, rowId, render).value);
  }

  // ---------------------------------------------------------------------------------------------
  // Promotion

  /**
   * The analytic row for a staging row: `total_sales / quantity` as the sale price (NULL when a
   * factor is NULL or the quantity is 0) and `sale_price - rrp` as the margin (NULL when either
   * is NULL).
   */
  function Derive(row: StagingRow): (a: AnalyticRow)
    ensures a.source == row
    ensures a.salePrice.Some? <==> row.quantity.Some? && row.quantity.value != 0 && row.totalSales.Some?
    ensures a.salePrice.Some? ==> a.salePrice.value * row.quantity.value as real == row.totalSales.value
    ensures a.margin.Some? <==> a.salePrice.Some? && row.rrp.Some?
    ensures a.margin.Some? ==> a.margin.value + row.rrp.value == a.salePrice.value
  {
    var salePrice :=
      if row.quantity.Some? && row.quantity.value != 0 && row.totalSales.Some?
      then Some(row.totalSales.value / row.quantity.value as real)
      else None;
    var margin := if salePrice.Some? && row.rrp.Some? then Some(salePrice.value - row.rrp.value) else None;
    AnalyticRow(row, salePrice, margin)
  }

  /**
   * `SELECT ... FROM duck_store_staging WHERE id NOT IN (ids)`: every staging row, from every
   * batch so far, whose id was not flagged, derived and in table order.
   */
  function Promote(staging: seq<StagingRow>, flagged: seq<string>): (r: seq<AnalyticRow>)
    ensures |r| <= |staging|
    ensures forall a :: a in r ==> a.source in staging && a.source.id !in flagged && a == Derive(a.source)
    ensures forall s :: s in staging && s.id !in flagged ==> Derive(s) in r
    decreases |staging|
  {
    if staging == [] then []
    else
      var n := |staging| - 1;
      var rest := Promote(staging[..n], flagged);
      assert staging == staging[..n] + [staging[n]];
      if staging[n].id in flagged then rest else rest + [Derive(staging[n])]
  }

  predicate SourceIdsUnique(rows: seq<AnalyticRow>) {
    forall i, j :: 0 <= i < j < |rows| ==> rows[i].source.id != rows[j].source.id
  }

  /**
   * The promotion never yields a row twice for one staging row: with distinct staging ids the
   * promoted rows have distinct ids too.
   */
  lemma {:induction false} PromoteKeepsIdsDistinct(staging: seq<StagingRow>, flagged: seq<string>)
    requires IdsUnique(staging)
    ensures SourceIdsUnique(Promote(staging, flagged))
    decreases |staging|
  {
    if staging != [] {
      var n := |staging| - 1;
      assert IdsUnique(staging[..n]);
      PromoteKeepsIdsDistinct(staging[..n], flagged);
      var rest := Promote(staging[..n], flagged);
      forall a | a in rest ensures a.source.id != staging[n].id {
        var k :| 0 <= k < n && staging[..n][k] == a.source;
      }
      var r := Promote(staging, flagged);
      if staging[n].id in flagged {
        assert r == rest;
      } else {
        assert r == rest + [Derive(staging[n])];
        forall i, j | 0 <= i < j < |r| ensures r[i].source.id != r[j].source.id {
          assert r[i] == rest[i] && rest[i] in rest;
          if j < |rest| {
            assert r[j] == rest[j];
          } else {
            assert r[j].source == staging[n];
            assert rest[i].source.id != staging[n].id;
          }
        }
      }
    }
  }

  /**
   * When the report agrees with the rule table, the promotion takes exactly the staging rows
   * that break no rule: each promoted row's source sits somewhere in staging with no violation,
   * and every staging row without a violation is promoted.
   */
  lemma PromotesCleanRows(staging: seq<StagingRow>, report: seq<LibError>, today: Date, errorId: nat -> Id)
    requires ReportAgrees(staging, report, today) && IdsUnique(staging) && |staging| > 0
    ensures ValidateSpec(staging, report, errorId).Success?
    ensures var p := Promote(staging, RowIds(ValidateSpec(staging, report, errorId).value));
      && (forall k :: 0 <= k < |staging| && Violations(staging[k], staging[..k], today) == [] ==> Derive(staging[k]) in p)
      && (forall a :: a in p ==> exists k :: 0 <= k < |staging| && staging[k] == a.source && Violations(staging[k], staging[..k], today) == [])
  {
    ValidationListsViolations(staging, report, today, errorId, 0);
    var ids := RowIds(ValidateSpec(staging, report, errorId).value);
    forall k | 0 <= k < |staging| ensures staging[k].id in ids <==> Violations(staging[k], staging[..k], today) != [] {
      ValidationListsViolations(staging, report, today, errorId, k);
    }
    forall a | a in Promote(staging, ids)
      ensures exists k :: 0 <= k < |staging| && staging[k] == a.source && Violations(staging[k], staging[..k], today) == []
    {
      var k :| 0 <= k < |staging| && staging[k] == a.source;
    }
  }

  /**
   * Promotion reads all of staging, so a row promoted by an earlier request and not flagged now
   * is offered again; its hash is already stored, and the analytic insert is refused.
   */
  lemma RepromotionRefused(analytic: seq<AnalyticRow>, staging: seq<StagingRow>, flagged: seq<string>, i: nat, s: StagingRow)
    requires i < |analytic| && s in staging && s.id !in flagged && analytic[i].source.hash == s.hash
    ensures !HashesUnique(analytic + Promote(staging, flagged))
  {
    var p := Promote(staging, flagged);
    var j :| 0 <= j < |p| && p[j] == Derive(s);
    AnalyticClash(analytic, p, i, j);
  }

  /**
   * Two lines, one complete (10 units for 100, recommended price 8) and one flagged: only the
   * first is promoted, at a sale price of 10 and a margin of 2.
   */
  lemma TwoLineExample(good: StagingRow, bad: StagingRow)
    requires good.id != bad.id
    requires good.quantity == Some(10) && good.totalSales == Some(100.0) && good.rrp == Some(8.0)
    ensures Promote([good, bad], [bad.id]) == [Derive(good)]
    ensures Derive(good).salePrice == Some(10.0) && Derive(good).margin == Some(2.0)
  {
    assert [good, bad][..1] == [good];
    assert [good][..0] == [];
  }

  // ---------------------------------------------------------------------------------------------
  // The request

  datatype IngestionResponse = IngestionResponse(rowsForReview: int, rowsReceived: int, rowsIngested: int, message: string)

  /**
   * `ingest`: stage the batch, validate all of staging, promote the unflagged staging rows when
   * something was flagged, and report the counts. Each database write that succeeds stays
   * written when a later step fails.
   */
  method Ingest(db: Store, batch: Batch, hasher: seq<Cell> -> string, rowId: nat -> Id, render: real -> string,
                validate: seq<StagingRow> -> seq<LibError>, errorId: nat -> Id)
    returns (r: Result<IngestionResponse, Fault>)
    requires db.Valid()
    modifies db
    ensures db.Valid()
    ensures r.Success? ==> r.value.rowsForReview + r.value.rowsIngested == r.value.rowsReceived == |batch.rows|
    ensures Prepare(batch, hasher, rowId, render).Failure? ==>
      && r == Failure(Prepare(batch, hasher, rowId, render).error)
      && db.staging == old(db.staging) && db.analytic == old(db.analytic) && db.errors == old(db.errors)
    ensures Prepare(batch, hasher, rowId, render).Success? && !IdsUnique(old(db.staging) + Prepare(batch, hasher, rowId, render).value) ==>
      && r == Failure(PrimaryKeyViolation)
      && db.staging == old(db.staging) && db.analytic == old(db.analytic) && db.errors == old(db.errors)
    ensures Prepare(batch, hasher, rowId, render).Success? && IdsUnique(old(db.staging) + Prepare(batch, hasher, rowId, render).value) ==>
      && db.staging == old(db.staging) + Prepare(batch, hasher, rowId, render).value
      && AfterStaging(old(db.analytic), old(db.errors), db.staging, |batch.rows|, validate, errorId) == (r, db.analytic, db.errors)
  {
    var prepared := Prepare(batch, hasher, rowId, render);
    if prepared.Failure? {
      return Failure(prepared.error);
    }
    var staged := db.InsertStaging(prepared.value);
    if staged.Failure? {
      return Failure(staged.error);
    }
    r := ValidateAndPromote(db, |batch.rows|, validate, errorId);
  }

  /**
   * The rest of `ingest` once the batch is in staging: validation of the whole table, the
   * promotion when anything was flagged, and the response.
   */
  method ValidateAndPromote(db: Store, received: nat, validate: seq<StagingRow> -> seq<LibError>, errorId: nat -> Id)
    returns (r: Result<IngestionResponse, Fault>)
    requires db.Valid()
    modifies db`errors, db`analytic
    ensures db.Valid()
    ensures AfterStaging(old(db.analytic), old(db.errors), db.staging, received, validate, errorId) == (r, db.analytic, db.errors)
  {
    ghost var spec := ValidateSpec(db.staging, validate(db.staging), errorId);
    ghost var after := AfterStaging(db.analytic, db.errors, db.staging, received, validate, errorId);
    var ids := db.ProcessValidation(validate, errorId);
    if ids.Failure? {
      assert after == (Failure(ids.error), db.analytic, db.errors);
      return Failure(ids.error);
    }
    assert spec.Success?;
    assert ids.value == RowIds(spec.value) && db.errors == old(db.errors) + spec.value;
    r := Success(IngestionResponse(|ids.value|, received, received - |ids.value|, "Successful ingestion"));
    if |ids.value| > 0 {
      var promoted := db.InsertAnalytic(Promote(db.staging, ids.value));
      if promoted.Failure? {
        assert after == (Failure(UniqueViolation), db.analytic, db.errors);
        return Failure(promoted.error);
      }
      assert after == (r, db.analytic, db.errors);
    } else {
      assert after == (r, db.analytic, db.errors);
    }
  }

  /**
   * What the request does once the batch is in staging: the outcome, the analytic table and
   * the error table after validating `staging` and, when anything was flagged, promoting.
   */
  function AfterStaging(analytic: seq<AnalyticRow>, errors: seq<ErrorRecord>, staging: seq<StagingRow>, received: nat,
                        validate: seq<StagingRow> -> seq<LibError>, errorId: nat -> Id)
    : (r: (Result<IngestionResponse, Fault>, seq<AnalyticRow>, seq<ErrorRecord>))
    ensures r.0.Success? ==> r.0.value.rowsReceived == received && r.0.value.rowsForReview + r.0.value.rowsIngested == received
    ensures HashesUnique(analytic) ==> HashesUnique(r.1)
  {
    match ValidateSpec(staging, validate(staging), errorId)
    case Failure(f) => (Failure(f), analytic, errors)
    case Success(records) =>
      var ids := RowIds(records);
      var response := Success(IngestionResponse(|ids|, received, received - |ids|, "Successful ingestion"));
      if |ids| == 0 then (response, analytic, errors + records)
      else
        var p := Promote(staging, ids);
        if HashesUnique(analytic + p) then (response, analytic + p, errors + records)
        else (Failure(UniqueViolation), analytic, errors + records)
  }

  // ---------------------------------------------------------------------------------------------
  // What the request does, in terms of the rule table

  /** Every id the validation flags is the id of some staging row. */
  lemma FlaggedIdsAreStaged(staging: seq<StagingRow>, report: seq<LibError>, today: Date, errorId: nat -> Id, x: string)
    requires ReportAgrees(staging, report, today) && IdsUnique(staging)
    requires ErrorRecords(report, errorId).Success? && x in RowIds(ErrorRecords(report, errorId).value)
    ensures exists k :: 0 <= k < |staging| && staging[k].id == x
  {
    AgreeingReportConverts(staging, report, today, errorId);
    var ids := RowIds(ErrorRecords(report, errorId).value);
    var i :| 0 <= i < |ids| && ids[i] == x;
    var l := Locations(report)[i];
    assert TextCells(ids)[i] == RowCells(Locations(report))[i];
    assert l in multiset(Expected(staging, today));
    ExpectedShape(staging, today, l);
  }

  /**
   * A validation that flags nothing promotes nothing: when every staging row is clean, the
   * analytic table stays as it was and the whole batch is reported as ingested.
   */
  lemma CleanStagingNotPromoted(analytic: seq<AnalyticRow>, errors: seq<ErrorRecord>, staging: seq<StagingRow>, received: nat,
                                validate: seq<StagingRow> -> seq<LibError>, errorId: nat -> Id, today: Date)
    requires ReportAgrees(staging, validate(staging), today) && IdsUnique(staging) && |staging| > 0
    requires forall k :: 0 <= k < |staging| ==> Violations(staging[k], staging[..k], today) == []
    ensures var r := AfterStaging(analytic, errors, staging, received, validate, errorId);
      && r.0 == Success(IngestionResponse(0, received, received, "Successful ingestion"))
      && r.1 == analytic && r.2 == errors
  {
    var report := validate(staging);
    ValidationListsViolations(staging, report, today, errorId, 0);
    var records := ValidateSpec(staging, report, errorId).value;
    var ids := RowIds(records);
    if |ids| > 0 {
      FlaggedIdsAreStaged(staging, report, today, errorId, ids[0]);
      var k :| 0 <= k < |staging| && staging[k].id == ids[0];
      ValidationListsViolations(staging, report, today, errorId, k);
      assert false;
    }
    NothingFlagged(analytic, errors, staging, received, validate, errorId);
  }

  /** A validation that produces no error record leaves both tables as they were and ingests the whole batch. */
  lemma NothingFlagged(analytic: seq<AnalyticRow>, errors: seq<ErrorRecord>, staging: seq<StagingRow>, received: nat,
                       validate: seq<StagingRow> -> seq<LibError>, errorId: nat -> Id)
    requires ValidateSpec(staging, validate(staging), errorId) == Success([])
    ensures AfterStaging(analytic, errors, staging, received, validate, errorId) ==
      (Success(IngestionResponse(0, received, received, "Successful ingestion")), analytic, errors)
  {
    assert RowIds([]) == [] && errors + [] == errors;
  }

  /**
   * The response counts one entry per violation, not per row: the rows held for review are at
   * least the violations of any one staging row, so a one-line batch whose line breaks two rules
   * reports a negative number of ingested rows.
   */
  lemma ReviewCountsViolations(analytic: seq<AnalyticRow>, errors: seq<ErrorRecord>, staging: seq<StagingRow>, received: nat,
                               validate: seq<StagingRow> -> seq<LibError>, errorId: nat -> Id, today: Date, k: nat)
    requires ReportAgrees(staging, validate(staging), today) && IdsUnique(staging) && k < |staging|
    ensures var r := AfterStaging(analytic, errors, staging, received, validate, errorId);
      r.0.Success? ==> r.0.value.rowsForReview >= |Violations(staging[k], staging[..k], today)|
    ensures var r := AfterStaging(analytic, errors, staging, received, validate, errorId);
      r.0.Success? && received == 1 && |Violations(staging[k], staging[..k], today)| >= 2 ==> r.0.value.rowsIngested < 0
  {
    var report := validate(staging);
    AfterStagingCounts(analytic, errors, staging, received, validate, errorId);
    ValidationListsViolations(staging, report, today, errorId, k);
    var ids := RowIds(ValidateSpec(staging, report, errorId).value);
    assert multiset(ids)[staging[k].id] <= |multiset(ids)| == |ids|;
  }

  /** A successful request holds for review one row per error record and counts the rest as ingested. */
  lemma AfterStagingCounts(analytic: seq<AnalyticRow>, errors: seq<ErrorRecord>, staging: seq<StagingRow>, received: nat,
                           validate: seq<StagingRow> -> seq<LibError>, errorId: nat -> Id)
    ensures var r := AfterStaging(analytic, errors, staging, received, validate, errorId);
      r.0.Success? ==>
        && ValidateSpec(staging, validate(staging), errorId).Success?
        && r.0.value.rowsForReview == |ValidateSpec(staging, validate(staging), errorId).value|
        && r.0.value.rowsIngested == received - r.0.value.rowsForReview
  {
  }

  /**
   * Uploading again a line that an earlier request promoted: the new copy repeats a staged hash
   * and is flagged, so the promotion runs, offers the earlier clean copy again, and the request
   * fails on the analytic table's UNIQUE constraint. The error records stay written.
   */
  lemma ResubmittedLineFailsRequest(analytic: seq<AnalyticRow>, errors: seq<ErrorRecord>, staging: seq<StagingRow>, received: nat,
                                    validate: seq<StagingRow> -> seq<LibError>, errorId: nat -> Id, today: Date,
                                    first: nat, again: nat, m: nat)
    requires ReportAgrees(staging, validate(staging), today) && IdsUnique(staging)
    requires first < again < |staging| && staging[again].hash == staging[first].hash
    requires Violations(staging[first], staging[..first], today) == []
    requires m < |analytic| && analytic[m].source.hash == staging[first].hash
    ensures var r := AfterStaging(analytic, errors, staging, received, validate, errorId);
      && r.0 == Failure(UniqueViolation)
      && r.1 == analytic
      && ValidateSpec(staging, validate(staging), errorId).Success?
      && r.2 == errors + ValidateSpec(staging, validate(staging), errorId).value
  {
    var report := validate(staging);
    var row := staging[again];
    assert Violates(row, staging[..again], HashField, today) by {
      assert staging[..again][first].hash == row.hash;
    }
    assert Violations(row, staging[..again], today) != [] by {
      ViolationsListed(row, staging[..again], today, HashField);
    }
    ValidationListsViolations(staging, report, today, errorId, again);
    ValidationListsViolations(staging, report, today, errorId, first);
    var ids := RowIds(ValidateSpec(staging, report, errorId).value);
    assert row.id in ids && staging[first].id !in ids;
    RepromotionRefused(analytic, staging, ids, m, staging[first]);
    PromotionClashFails(analytic, errors, staging, received, validate, errorId);
  }

  /** A validation that flags something, followed by a refused promotion, fails the request after writing the errors. */
  lemma PromotionClashFails(analytic: seq<AnalyticRow>, errors: seq<ErrorRecord>, staging: seq<StagingRow>, received: nat,
                            validate: seq<StagingRow> -> seq<LibError>, errorId: nat -> Id)
    requires ValidateSpec(staging, validate(staging), errorId).Success?
    requires var ids := RowIds(ValidateSpec(staging, validate(staging), errorId).value);
      |ids| > 0 && !HashesUnique(analytic + Promote(staging, ids))
    ensures var r := AfterStaging(analytic, errors, staging, received, validate, errorId);
      && r.0 == Failure(UniqueViolation)
      && r.1 == analytic
      && r.2 == errors + ValidateSpec(staging, validate(staging), errorId).value
  {
  }
}
