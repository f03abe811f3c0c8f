/**
 * Row validation: the fixed rule table every staging record is checked against, and the
 * post-processing that turns the validation library's report into error records and the list
 * of offending row ids.
 *
 * The library itself is not modelled. Its report is an input; `ReportAgrees` states, as a
 * hypothesis for the lemmas, that the report lists exactly the rule-table violations.
 */
module Validation {
  import opened Wrappers
  import opened Text
  import opened Records

  // ---------------------------------------------------------------------------------------------
  // The rule table

  /** The fields of the schema, in the order the schema declares them. */
  datatype Field =
    | IdField | HashField | StoreName | ItemCode | ItemBarcode | Description | Category
    | Department | SubDepartment | Section | Quantity | TotalSales | Rrp | Supplier | DateOfSale

  const SchemaFields: seq<Field> := [
    IdField, HashField, StoreName, ItemCode, ItemBarcode, Description, Category,
    Department, SubDepartment, Section, Quantity, TotalSales, Rrp, Supplier, DateOfSale]

  function FieldName(f: Field): string {
    match f
    case IdField => "id"
    case HashField => "hash"
    case StoreName => "store_name"
    case ItemCode => "item_code"
    case ItemBarcode => "item_barcode"
    case Description => "description"
    case Category => "category"
    case Department => "department"
    case SubDepartment => "sub_department"
    case Section => "section"
    case Quantity => "quantity"
    case TotalSales => "total_sales"
    case Rrp => "rrp"
    case Supplier => "supplier"
    case DateOfSale => "date_of_sale"
  }

  /** A required text value is missing when it is NULL or empty. */
  predicate Blank(v: Option<string>) {
    v.None? || v.value == ""
  }

  /** Field `f` of `row` holds no value: an empty id or hash, a blank text, a NULL amount or date. */
  predicate Absent(row: StagingRow, f: Field) {
    match f
    case IdField => row.id == ""
    case HashField => row.hash == ""
    case StoreName => Blank(row.storeName)
    case ItemCode => Blank(row.itemCode)
    case ItemBarcode => Blank(row.itemBarcode)
    case Description => Blank(row.description)
    case Category => Blank(row.category)
    case Department => Blank(row.department)
    case SubDepartment => Blank(row.subDepartment)
    case Section => Blank(row.section)
    case Quantity => row.quantity.None?
    case TotalSales => row.totalSales.None?
    case Rrp => row.rrp.None?
    case Supplier => Blank(row.supplier)
    case DateOfSale => row.dateOfSale.None?
  }

  /**
   * Whether `row` breaks the rule for field `f`, given the rows validated before it: every
   * field is required; `hash` must not repeat an earlier row's; `quantity`, `total_sales` and
   * `rrp` must not be below 0; `date_of_sale` must not be after `today`.
   */
  predicate Violates(row: StagingRow, earlier: seq<StagingRow>, f: Field, today: Date)
    ensures Absent(row, f) ==> Violates(row, earlier, f, today)
    ensures Violates(row, earlier, f, today) && !Absent(row, f) ==> f in {HashField, Quantity, TotalSales, Rrp, DateOfSale}
  {
    match f
    case IdField => row.id == ""
    case HashField => row.hash == "" || exists j :: 0 <= j < |earlier| && earlier[j].hash == row.hash
    case StoreName => Blank(row.storeName)
    case ItemCode => Blank(row.itemCode)
    case ItemBarcode => Blank(row.itemBarcode)
    case Description => Blank(row.description)
    case Category => Blank(row.category)
    case Department => Blank(row.department)
    case SubDepartment => Blank(row.subDepartment)
    case Section => Blank(row.section)
    case Quantity => row.quantity.None? || row.quantity.value < 0
    case TotalSales => row.totalSales.None? || row.totalSales.value < 0.0
    case Rrp => row.rrp.None? || row.rrp.value < 0.0
    case Supplier => Blank(row.supplier)
    case DateOfSale => row.dateOfSale.None? || row.dateOfSale.value > today
  }

  /** The primary key: `row` repeats the id of a row validated before it. */
  predicate PrimaryKeyClash(row: StagingRow, earlier: seq<StagingRow>) {
    exists j :: 0 <= j < |earlier| && earlier[j].id == row.id
  }

  /** `[f]` when `row` breaks the rule for `f`, otherwise nothing. */
  function Check(row: StagingRow, earlier: seq<StagingRow>, f: Field, today: Date): seq<Field> {
    if Violates(row, earlier, f, today) then [f] else []
  }

  /** The position of each field in the schema. */
  function FieldIndex(f: Field): (i: nat)
    ensures i < |SchemaFields| && SchemaFields[i] == f
  {
    match f
    case IdField => 0
    case HashField => 1
    case StoreName => 2
    case ItemCode => 3
    case ItemBarcode => 4
    case Description => 5
    case Category => 6
    case Department => 7
    case SubDepartment => 8
    case Section => 9
    case Quantity => 10
    case TotalSales => 11
    case Rrp => 12
    case Supplier => 13
    case DateOfSale => 14
  }

  /** The schema lists each field once. */
  lemma SchemaFieldsDistinct(i: nat)
    requires i < |SchemaFields|
    ensures FieldIndex(SchemaFields[i]) == i
  {
  }

  /** The fields from position `i` of the schema on that `row` violates, in schema order. */
  function ViolationsFrom(row: StagingRow, earlier: seq<StagingRow>, today: Date, i: nat): seq<Field>
    requires i <= |SchemaFields|
    decreases |SchemaFields| - i
  {
    if i == |SchemaFields| then []
    else Check(row, earlier, SchemaFields[i], today) + ViolationsFrom(row, earlier, today, i + 1)
  }

  /** The fields `row` violates, in schema order: one entry per broken rule. */
  function Violations(row: StagingRow, earlier: seq<StagingRow>, today: Date): (r: seq<Field>)
    ensures forall k :: 0 <= k < |r| ==> Violates(row, earlier, r[k], today)
  {
    var r := ViolationsFrom(row, earlier, today, 0);
    forall k | 0 <= k < |r|
      ensures Violates(row, earlier, r[k], today)
    {
      ViolationsFromCount(row, earlier, today, 0, r[k]);
      assert r[k] in multiset(r);
    }
    r
  }

  /** The check of field `g` lists `f` once when they are the same field and it is violated. */
  lemma CheckCount(row: StagingRow, earlier: seq<StagingRow>, g: Field, today: Date, f: Field)
    ensures multiset(Check(row, earlier, g, today))[f] == if g == f && Violates(row, earlier, f, today) then 1 else 0
  {
  }

  /** Listing from position `i` is the check of the field at `i` followed by the listing from `i + 1`. */
  lemma ViolationsFromStep(row: StagingRow, earlier: seq<StagingRow>, today: Date, i: nat, f: Field)
    requires i < |SchemaFields|
    ensures multiset(ViolationsFrom(row, earlier, today, i))[f] ==
      multiset(Check(row, earlier, SchemaFields[i], today))[f] + multiset(ViolationsFrom(row, earlier, today, i + 1))[f]
  {
    var c, rest := Check(row, earlier, SchemaFields[i], today), ViolationsFrom(row, earlier, today, i + 1);
    assert ViolationsFrom(row, earlier, today, i) == c + rest;
    assert multiset(c + rest) == multiset(c) + multiset(rest);
  }

  /** The field at position `i` is `f` exactly when `f`'s position is `i`. */
  lemma FieldAt(i: nat, f: Field)
    requires i < |SchemaFields|
    ensures SchemaFields[i] == f <==> FieldIndex(f) == i
  {
    SchemaFieldsDistinct(i);
  }

  /** From schema position `i` on, a violated field is listed once if its position is not before `i`. */
  lemma {:induction false} ViolationsFromCount(row: StagingRow, earlier: seq<StagingRow>, today: Date, i: nat, f: Field)
    requires i <= |SchemaFields|
    ensures multiset(ViolationsFrom(row, earlier, today, i))[f] ==
      if i <= FieldIndex(f) && Violates(row, earlier, f, today) then 1 else 0
    decreases |SchemaFields| - i
  {
    if i < |SchemaFields| {
      ViolationsFromCount(row, earlier, today, i + 1, f);
      ViolationsFromStep(row, earlier, today, i, f);
      CheckCount(row, earlier, SchemaFields[i], today, f);
      FieldAt(i, f);
    }
  }

  /** A field is listed exactly when the row breaks its rule, and then once. */
  lemma ViolationsListed(row: StagingRow, earlier: seq<StagingRow>, today: Date, f: Field)
    ensures f in Violations(row, earlier, today) <==> Violates(row, earlier, f, today)
    ensures multiset(Violations(row, earlier, today))[f] == if Violates(row, earlier, f, today) then 1 else 0
  {
    ViolationsFromCount(row, earlier, today, 0, f);
  }

  /** From any schema position on, a row that breaks no rule gets nothing listed. */
  lemma {:induction false} NoViolationsFrom(row: StagingRow, earlier: seq<StagingRow>, today: Date, i: nat)
    requires i <= |SchemaFields|
    requires forall f :: !Violates(row, earlier, f, today)
    ensures ViolationsFrom(row, earlier, today, i) == []
    decreases |SchemaFields| - i
  {
    if i < |SchemaFields| {
      NoViolationsFrom(row, earlier, today, i + 1);
    }
  }

  /** A row passes exactly when it breaks no rule of the table. */
  lemma ViolationsEmpty(row: StagingRow, earlier: seq<StagingRow>, today: Date)
    ensures Violations(row, earlier, today) == [] <==> forall f :: !Violates(row, earlier, f, today)
  {
    if forall f :: !Violates(row, earlier, f, today) {
      NoViolationsFrom(row, earlier, today, 0);
    } else {
      var f :| Violates(row, earlier, f, today);
      ViolationsListed(row, earlier, today, f);
    }
  }

  /** A row that satisfies the whole table: every field present, amounts not negative, date not in the future. */
  lemma CleanRow(row: StagingRow, earlier: seq<StagingRow>, today: Date)
    requires row.id != "" && row.hash != ""
    requires forall j :: 0 <= j < |earlier| ==> earlier[j].hash != row.hash
    requires !Blank(row.storeName) && !Blank(row.itemCode) && !Blank(row.itemBarcode)
    requires !Blank(row.description) && !Blank(row.category) && !Blank(row.department)
    requires !Blank(row.subDepartment) && !Blank(row.section) && !Blank(row.supplier)
    requires row.quantity.Some? && row.quantity.value >= 0
    requires row.totalSales.Some? && row.totalSales.value >= 0.0
    requires row.rrp.Some? && row.rrp.value >= 0.0
    requires row.dateOfSale.Some? && row.dateOfSale.value <= today
    ensures Violations(row, earlier, today) == []
  {
    forall f ensures !Violates(row, earlier, f, today) {
    }
    NoViolationsFrom(row, earlier, today, 0);
  }

  /** The three amounts may be 0: only a negative amount breaks the rule. */
  lemma ZeroAmountsPass(row: StagingRow, earlier: seq<StagingRow>, today: Date)
    requires row.quantity == Some(0) && row.totalSales == Some(0.0) && row.rrp == Some(0.0)
    ensures Quantity !in Violations(row, earlier, today)
    ensures TotalSales !in Violations(row, earlier, today)
    ensures Rrp !in Violations(row, earlier, today)
  {
    ViolationsListed(row, earlier, today, Quantity);
    ViolationsListed(row, earlier, today, TotalSales);
    ViolationsListed(row, earlier, today, Rrp);
  }

  // ---------------------------------------------------------------------------------------------
  // What a report that agrees with the rule table looks like

  /** Where a report entry points: the row's first two cells (its id and hash) and the field. */
  datatype Location = Location(rowCell: Cell, hashCell: Cell, field: Option<string>)

  function CellAt(cells: seq<Cell>, i: nat): Cell {
    if i < |cells| then cells[i] else Missing
  }

  function LocationOf(e: LibError): Location {
    Location(CellAt(e.cells, 0), CellAt(e.cells, 1), e.fieldName)
  }

  function Locations(report: seq<LibError>): (r: seq<Location>)
    ensures |r| == |report|
    ensures forall i :: 0 <= i < |report| ==> r[i] == LocationOf(report[i])
  {
    seq(|report|, i requires 0 <= i < |report| => LocationOf(report[i]))
  }

  /** The entries the rule table calls for on one row: one per violated field, one more for a repeated id. */
  function RowExpected(row: StagingRow, earlier: seq<StagingRow>, today: Date): (r: seq<Location>)
    ensures forall l :: l in r ==> l.rowCell == Text(row.id) && l.hashCell == Text(row.hash)
  {
    var fs := Violations(row, earlier, today);
    seq(|fs|, i requires 0 <= i < |fs| => Location(Text(row.id), Text(row.hash), Some(FieldName(fs[i]))))
    + (if PrimaryKeyClash(row, earlier) then [Location(Text(row.id), Text(row.hash), None)] else [])
  }

  /** The entries the rule table calls for on a whole batch, row by row. */
  function Expected(data: seq<StagingRow>, today: Date): seq<Location>
    decreases |data|
  {
    if data == [] then []
    else
      var n := |data| - 1;
      Expected(data[..n], today) + RowExpected(data[n], data[..n], today)
  }

  /** The library's report lists exactly the rule-table violations of `data`, in some order. */
  predicate ReportAgrees(data: seq<StagingRow>, report: seq<LibError>, today: Date) {
    multiset(Locations(report)) == multiset(Expected(data, today))
  }

  // ---------------------------------------------------------------------------------------------
  // Post-processing of the report

  function NumberText(n: Option<nat>): (r: string)
    ensures |r| > 0
  {
    match n
    case Some(k) => NatToString(k)
    case None => "None"
  }

  /**
   * The message with every occurrence of the field number replaced by the field name, and then
   * every occurrence of the row number replaced by the row id.
   */
  function RewriteMessage(message: string, fieldNumber: string, fieldName: string, rowNumber: string, rowId: string): (r: string)
    requires |fieldNumber| > 0 && |rowNumber| > 0
    ensures forall c :: c in r ==> c in message || c in fieldName || c in rowId
  {
    var t := ReplaceAll(message, fieldNumber, fieldName);
    var r := ReplaceAll(t, rowNumber, rowId);
    assert forall c :: c in r ==> c in message || c in fieldName || c in rowId by {
      forall c | c in r
        ensures c in message || c in fieldName || c in rowId
      {
        ReplaceChars(t, rowNumber, rowId, c);
        if c in t {
          ReplaceChars(message, fieldNumber, fieldName, c);
        }
      }
    }
    r
  }

  /** A message that mentions neither number comes back unchanged. */
  lemma RewriteKeepsPlainMessage(message: string, fieldNumber: string, fieldName: string, rowNumber: string, rowId: string)
    requires |fieldNumber| > 0 && |rowNumber| > 0
    requires !Contains(message, fieldNumber) && !Contains(message, rowNumber)
    ensures RewriteMessage(message, fieldNumber, fieldName, rowNumber, rowId) == message
  {
    ReplaceAbsent(message, fieldNumber, fieldName);
    ReplaceAbsent(message, rowNumber, rowId);
  }

  /**
   * A field name (letters and underscores, no digit) leaves no trace of the field number after
   * the first replacement.
   */
  lemma FieldNumberReplaced(message: string, fieldNumber: nat, fieldName: string)
    requires |fieldName| > 0 && forall i :: 0 <= i < |fieldName| ==> !IsDigit(fieldName[i])
    ensures !Contains(ReplaceAll(message, NatToString(fieldNumber), fieldName), NatToString(fieldNumber))
  {
    var digits := NatToString(fieldNumber);
    forall c | c in fieldName ensures c !in digits {
      assert !IsDigit(c);
    }
    ReplaceRemoves(message, digits, fieldName);
  }

  /** A stored record keeps the library's message as it is when the message mentions neither number. */
  lemma RecordKeepsPlainMessage(e: LibError, id: Id)
    requires RecordOf(e, id).Success?
    requires !Contains(e.message, NumberText(e.fieldNumber)) && !Contains(e.message, NumberText(e.rowNumber))
    ensures RecordOf(e, id).value.message == e.message
  {
    RewriteKeepsPlainMessage(e.message, NumberText(e.fieldNumber), e.fieldName.value, NumberText(e.rowNumber), e.cells[0].text);
  }

  /** Every schema field name is free of digits, so `FieldNumberReplaced` applies to them all. */
  lemma FieldNamesHaveNoDigits(f: Field)
    ensures |FieldName(f)| > 0 && forall i :: 0 <= i < |FieldName(f)| ==> !IsDigit(FieldName(f)[i])
  {
  }

  /**
   * The error record for one report entry. Reading the row id from the first cell fails on an
   * entry without cells; the message replacement fails when the field name is absent or the
   * row id is not text; reading the hash from the second cell fails on an entry with one cell.
   */
  function RecordOf(e: LibError, id: Id): (r: Result<ErrorRecord, Fault>)
    ensures r.Success? <==> |e.cells| >= 2 && e.fieldName.Some? && e.cells[0].Text?
    ensures r.Success? ==>
      && r.value.id == id
      && r.value.rowId == e.cells[0].text
      && r.value.hash == e.cells[1]
      && r.value.fieldName == e.fieldName.value
      && r.value.cellValue == e.cell
      && r.value.message == RewriteMessage(e.message, NumberText(e.fieldNumber), e.fieldName.value, NumberText(e.rowNumber), e.cells[0].text)
      && r.value.note == e.note
  {
    if |e.cells| == 0 then Failure(IndexError)
    else if e.fieldName.None? || !e.cells[0].Text? then Failure(TypeError)
    else if |e.cells| < 2 then Failure(IndexError)
    else
      var rowLoc := e.cells[0].text;
      var message := RewriteMessage(e.message, NumberText(e.fieldNumber), e.fieldName.value, NumberText(e.rowNumber), rowLoc);
      Success(ErrorRecord(id, rowLoc, e.cells[1], e.fieldName.value, e.cell, message, e.note))
  }

  /**
   * The error records for the entries from `i` on, the k-th entry carrying the k-th fresh id;
   * the first entry that cannot be turned into a record aborts the whole pass.
   */
  function ErrorRecordsFrom(report: seq<LibError>, errorId: nat -> Id, i: nat): (r: Result<seq<ErrorRecord>, Fault>)
    requires i <= |report|
    ensures r.Success? <==> forall k {:trigger RecordOf(report[k], errorId(k))} :: i <= k < |report| ==> RecordOf(report[k], errorId(k)).Success?
    ensures r.Success? ==>
      && |r.value| == |report| - i
      && forall k {:trigger RecordOf(report[k], errorId(k))} :: i <= k < |report| ==> RecordOf(report[k], errorId(k)) == Success(r.value[k - i])
    decreases |report| - i
  {
    if i == |report| then Success([])
    else
      var first := RecordOf(report[i], errorId(i));
      if first.Failure? then Failure(first.error)
      else
        var rest := ErrorRecordsFrom(report, errorId, i + 1);
        if rest.Failure? then rest else Success([first.value] + rest.value)
  }

  /** The error records for the whole report: entry k becomes record k, or the pass fails. */
  function ErrorRecords(report: seq<LibError>, errorId: nat -> Id): (r: Result<seq<ErrorRecord>, Fault>)
    ensures r.Success? <==> forall k {:trigger RecordOf(report[k], errorId(k))} :: 0 <= k < |report| ==> RecordOf(report[k], errorId(k)).Success?
    ensures r.Success? ==>
      && |r.value| == |report|
      && forall k {:trigger RecordOf(report[k], errorId(k))} :: 0 <= k < |report| ==> RecordOf(report[k], errorId(k)) == Success(r.value[k])
  {
    ErrorRecordsFrom(report, errorId, 0)
  }

  /** When every entry from `i` up to `k` converts and entry `k` does not, the pass fails with entry `k`'s fault. */
  lemma {:induction false} FirstFailure(report: seq<LibError>, errorId: nat -> Id, i: nat, k: nat)
    requires i <= k < |report| && RecordOf(report[k], errorId(k)).Failure?
    requires forall j {:trigger RecordOf(report[j], errorId(j))} :: i <= j < k ==> RecordOf(report[j], errorId(j)).Success?
    ensures ErrorRecordsFrom(report, errorId, i) == Failure(RecordOf(report[k], errorId(k)).error)
    decreases k - i
  {
    if i < k {
      FirstFailure(report, errorId, i + 1, k);
    }
  }

  /** What `data_validate` computes: no records for an empty batch, otherwise one per report entry. */
  function ValidateSpec(data: seq<StagingRow>, report: seq<LibError>, errorId: nat -> Id): (r: Result<seq<ErrorRecord>, Fault>)
    ensures r.Success? ==> |r.value| == if |data| == 0 then 0 else |report|
  {
    if |data| == 0 then Success([]) else ErrorRecords(report, errorId)
  }

  function RowIds(records: seq<ErrorRecord>): (r: seq<string>)
    ensures |r| == |records|
    ensures forall i :: 0 <= i < |records| ==> r[i] == records[i].rowId
  {
    seq(|records|, i requires 0 <= i < |records| => records[i].rowId)
  }

  /**
   * `data_validate`: walks the report, building the error records and, in lockstep, the list
   * of offending row ids, one per record.
   */
  method DataValidate(data: seq<StagingRow>, report: seq<LibError>, errorId: nat -> Id)
    returns (r: Result<(seq<string>, seq<ErrorRecord>), Fault>)
    ensures |data| == 0 ==> r == Success(([], []))
    ensures r.Success? <==> ValidateSpec(data, report, errorId).Success?
    ensures r.Failure? ==> r.error == ValidateSpec(data, report, errorId).error
    ensures r.Success? ==>
      && r.value.1 == ValidateSpec(data, report, errorId).value
      && |r.value.0| == |r.value.1|
      && forall i :: 0 <= i < |r.value.0| ==> r.value.0[i] == r.value.1[i].rowId
  {
    if |data| == 0 {
      return Success(([], []));
    }
    var errors: seq<ErrorRecord> := [];
    var ids: seq<string> := [];
    var k := 0;
    while k < |report|
      invariant k <= |report| && |errors| == k
      invariant forall i {:trigger RecordOf(report[i], errorId(i))} :: 0 <= i < k ==> RecordOf(report[i], errorId(i)) == Success(errors[i])
      invariant |ids| == |errors|
      invariant forall i :: 0 <= i < |ids| ==> ids[i] == errors[i].rowId
    {
      var record := RecordOf(report[k], errorId(k));
      if record.Failure? {
        FirstFailure(report, errorId, 0, k);
        return Failure(record.error);
      }
      errors := errors + [record.value];
      ids := ids + [record.value.rowId];
      k := k + 1;
    }
    AllConvert(report, errorId, errors);
    return Success((ids, errors));
  }

  /** When every entry converts, record by record, the pass yields exactly those records. */
  lemma AllConvert(report: seq<LibError>, errorId: nat -> Id, records: seq<ErrorRecord>)
    requires |records| == |report|
    requires forall i {:trigger RecordOf(report[i], errorId(i))} :: 0 <= i < |report| ==> RecordOf(report[i], errorId(i)) == Success(records[i])
    ensures ErrorRecords(report, errorId) == Success(records)
  {
    var r := ErrorRecords(report, errorId);
    forall i | 0 <= i < |report| ensures RecordOf(report[i], errorId(i)).Success? {
      assert RecordOf(report[i], errorId(i)) == Success(records[i]);
    }
    forall i | 0 <= i < |report| ensures r.value[i] == records[i] {
      assert RecordOf(report[i], errorId(i)) == Success(records[i]) == Success(r.value[i]);
    }
    assert r.value == records;
  }

  // ---------------------------------------------------------------------------------------------
  // A row is listed once per violation

  function RowCells(ls: seq<Location>): (r: seq<Cell>)
    ensures |r| == |ls|
  {
    seq(|ls|, i requires 0 <= i < |ls| => ls[i].rowCell)
  }

  lemma RowCellsAppend(a: seq<Location>, b: seq<Location>)
    ensures RowCells(a + b) == RowCells(a) + RowCells(b)
  {
  }

  /** Taking entry j out of a list of locations takes its row cell out of the list of row cells. */
  lemma RemoveAt(b: seq<Location>, j: nat)
    requires j < |b|
    ensures multiset(b) == multiset(b[..j] + b[j + 1..]) + multiset{b[j]}
    ensures multiset(RowCells(b)) == multiset(RowCells(b[..j] + b[j + 1..])) + multiset{b[j].rowCell}
  {
    var l, r := b[..j], b[j + 1..];
    assert b == l + [b[j]] + r;
    RowCellsAppend(l + [b[j]], r);
    RowCellsAppend(l, [b[j]]);
    RowCellsAppend(l, r);
    assert RowCells([b[j]]) == [b[j].rowCell];
  }

  lemma {:induction false} RowCellsPermutation(a: seq<Location>, b: seq<Location>)
    requires multiset(a) == multiset(b)
    ensures multiset(RowCells(a)) == multiset(RowCells(b))
    decreases |a|
  {
    if a == [] {
      assert |b| == |multiset(b)| == 0;
    } else {
      var x := a[0];
      assert x in multiset(b);
      assert x in b;
      var j :| 0 <= j < |b| && b[j] == x;
      var a', b' := a[1..], b[..j] + b[j + 1..];
      RemoveAt(b, j);
      RemoveAt(a, 0);
      assert a[..0] + a[1..] == a';
      MultisetCancel(multiset(a'), multiset(b'), x);
      RowCellsPermutation(a', b');
    }
  }

  lemma MultisetCancel<T>(p: multiset<T>, q: multiset<T>, x: T)
    requires p + multiset{x} == q + multiset{x}
    ensures p == q
  {
    assert p == (p + multiset{x}) - multiset{x};
    assert q == (q + multiset{x}) - multiset{x};
  }

  function TextCells(ids: seq<string>): (r: seq<Cell>)
    ensures |r| == |ids|
    ensures forall i :: 0 <= i < |ids| ==> r[i] == Text(ids[i])
  {
    seq(|ids|, i requires 0 <= i < |ids| => Text(ids[i]))
  }

  lemma {:induction false} TextCellsCount(ids: seq<string>, x: string)
    ensures multiset(TextCells(ids))[Text(x)] == multiset(ids)[x]
    decreases |ids|
  {
    if ids != [] {
      var n := |ids| - 1;
      TextCellsCount(ids[..n], x);
      assert ids == ids[..n] + [ids[n]];
      assert TextCells(ids) == TextCells(ids[..n]) + [Text(ids[n])];
    }
  }

  /** Every expected entry names a row of the batch by its id and hash cells and, for distinct ids, a field. */
  lemma {:induction false} ExpectedShape(data: seq<StagingRow>, today: Date, l: Location)
    requires IdsUnique(data) && l in Expected(data, today)
    ensures l.rowCell.Text? && l.hashCell.Text? && l.field.Some?
    ensures exists k :: 0 <= k < |data| && l.rowCell == Text(data[k].id)
    decreases |data|
  {
    var n := |data| - 1;
    assert IdsUnique(data[..n]);
    if l in Expected(data[..n], today) {
      ExpectedShape(data[..n], today, l);
      var k :| 0 <= k < n && l.rowCell == Text(data[..n][k].id);
      assert data[..n][k] == data[k];
    } else {
      assert !PrimaryKeyClash(data[n], data[..n]);
      assert l.rowCell == Text(data[n].id);
    }
  }

  lemma {:induction false} RepeatCount<T>(x: T, n: nat, y: T)
    ensures multiset(seq(n, i => x))[y] == if y == x then n else 0
    decreases n
  {
    if n > 0 {
      assert seq(n, i => x) == seq(n - 1, i => x) + [x];
      RepeatCount(x, n - 1, y);
    }
  }

  /** The entries for one row all carry that row's id: once per violated field, once more for a repeated id. */
  lemma RowExpectedCount(row: StagingRow, earlier: seq<StagingRow>, today: Date, x: Cell)
    ensures multiset(RowCells(RowExpected(row, earlier, today)))[x] ==
      if x == Text(row.id) then |Violations(row, earlier, today)| + (if PrimaryKeyClash(row, earlier) then 1 else 0) else 0
  {
    var n := |RowExpected(row, earlier, today)|;
    assert RowCells(RowExpected(row, earlier, today)) == seq(n, i => Text(row.id));
    RepeatCount(Text(row.id), n, x);
  }

  /** An id that no row of the batch carries is never expected. */
  lemma {:induction false} ExpectedAbsent(data: seq<StagingRow>, today: Date, x: string)
    requires forall k :: 0 <= k < |data| ==> data[k].id != x
    ensures multiset(RowCells(Expected(data, today)))[Text(x)] == 0
    decreases |data|
  {
    if data != [] {
      var n := |data| - 1;
      var a, b := Expected(data[..n], today), RowExpected(data[n], data[..n], today);
      assert forall k :: 0 <= k < n ==> data[..n][k] == data[k];
      ExpectedAbsent(data[..n], today, x);
      RowExpectedCount(data[n], data[..n], today, Text(x));
      assert Expected(data, today) == a + b;
      RowCellsAppend(a, b);
      assert multiset(RowCells(a + b)) == multiset(RowCells(a)) + multiset(RowCells(b));
    }
  }

  /** In a batch with distinct ids, row k's id is expected exactly once per field it violates. */
  lemma {:induction false} ExpectedCount(data: seq<StagingRow>, today: Date, k: nat)
    requires IdsUnique(data) && k < |data|
    ensures multiset(RowCells(Expected(data, today)))[Text(data[k].id)] == |Violations(data[k], data[..k], today)|
    decreases |data|
  {
    var n := |data| - 1;
    var x := Text(data[k].id);
    var prefix := data[..n];
    assert forall j :: 0 <= j < n ==> prefix[j] == data[j];
    var a, b := Expected(prefix, today), RowExpected(data[n], prefix, today);
    assert Expected(data, today) == a + b;
    RowCellsAppend(a, b);
    assert multiset(RowCells(a + b)) == multiset(RowCells(a)) + multiset(RowCells(b));
    RowExpectedCount(data[n], prefix, today, x);
    if k < n {
      assert IdsUnique(prefix);
      assert prefix[k] == data[k] && prefix[..k] == data[..k];
      ExpectedCount(prefix, today, k);
      assert data[n].id != data[k].id;
    } else {
      assert forall j :: 0 <= j < n ==> prefix[j].id != data[n].id;
      assert !PrimaryKeyClash(data[n], prefix);
      ExpectedAbsent(prefix, today, data[n].id);
      assert data[..k] == prefix;
    }
  }

  /** A report that agrees with the rule table names, in every entry, a text row id, a hash cell and a field. */
  lemma AgreeingReportConverts(data: seq<StagingRow>, report: seq<LibError>, today: Date, errorId: nat -> Id)
    requires ReportAgrees(data, report, today) && IdsUnique(data)
    ensures ErrorRecords(report, errorId).Success?
    ensures TextCells(RowIds(ErrorRecords(report, errorId).value)) == RowCells(Locations(report))
  {
    var locs := Locations(report);
    forall i | 0 <= i < |report| ensures RecordOf(report[i], errorId(i)).Success? {
      assert locs[i] in multiset(Expected(data, today));
      ExpectedShape(data, today, locs[i]);
    }
  }

  /**
   * When the library's report agrees with the rule table and the batch's ids are distinct,
   * the post-processing succeeds and lists each row's id exactly once per field the row
   * violates; a row without violations is never listed.
   */
  lemma ValidationListsViolations(data: seq<StagingRow>, report: seq<LibError>, today: Date, errorId: nat -> Id, k: nat)
    requires ReportAgrees(data, report, today) && IdsUnique(data) && k < |data|
    ensures ValidateSpec(data, report, errorId).Success?
    ensures multiset(RowIds(ValidateSpec(data, report, errorId).value))[data[k].id] == |Violations(data[k], data[..k], today)|
    ensures data[k].id in RowIds(ValidateSpec(data, report, errorId).value) <==> Violations(data[k], data[..k], today) != []
  {
    AgreeingReportConverts(data, report, today, errorId);
    var ids := RowIds(ErrorRecords(report, errorId).value);
    RowCellsPermutation(Locations(report), Expected(data, today));
    ExpectedCount(data, today, k);
    TextCellsCount(ids, data[k].id);
  }
}
