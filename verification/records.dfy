/**
 * The records the pipeline stores and passes around: the staging row and the analytic row of
 * the two transaction tables, the validation-error record, the error entry the validation
 * library reports, and the faults an operation can raise.
 */
module Records {
  import opened Wrappers

  /** A row or error identifier: the hexadecimal text of a uuid7. */
  type Id = string

  /** A calendar date, as a day number. */
  type Date = int

  /** A raw value, as the CSV reader or the validation library hands it over. */
  datatype Cell = Missing | Text(text: string) | Int(whole: int) | Num(num: real) | Day(day: Date)

  /**
   * A row of `duck_store_staging`, in the table's column order. Every business column is
   * nullable; `id` is the primary key and `hash` the content fingerprint.
   */
  datatype StagingRow = StagingRow(
    id: Id,
    hash: string,
    storeName: Option<string>,
    itemCode: Option<string>,
    itemBarcode: Option<string>,
    supplier: Option<string>,
    description: Option<string>,
    category: Option<string>,
    department: Option<string>,
    subDepartment: Option<string>,
    section: Option<string>,
    quantity: Option<int>,
    totalSales: Option<real>,
    rrp: Option<real>,
    dateOfSale: Option<Date>)

  /** A row of `duck_store`: the staging row it was promoted from plus the two derived columns. */
  datatype AnalyticRow = AnalyticRow(source: StagingRow, salePrice: Option<real>, margin: Option<real>)

  /** A row of `validation_errors`. */
  datatype ErrorRecord = ErrorRecord(
    id: Id,
    rowId: string,
    hash: Cell,
    fieldName: string,
    cellValue: Cell,
    message: string,
    note: string)

  /**
   * One entry of the validation library's flattened report: the offending cell, the row number,
   * the field name and number (absent for an error about a whole row), the message, the cells
   * of the offending row and the error kind.
   */
  datatype LibError = LibError(
    cell: Cell,
    rowNumber: Option<nat>,
    fieldName: Option<string>,
    fieldNumber: Option<nat>,
    message: string,
    cells: seq<Cell>,
    note: string)

  /** What an operation raises instead of returning. */
  datatype Fault =
    | MissingDateColumn          // the CSV reader is told to parse a column the file lacks
    | KeyError(column: string)   // a column the staging table needs is not in the batch
    | ValueError                 // a new column's values do not line up with the batch's rows
    | InsertError                // the batch does not fit the staging table's columns or types
    | PrimaryKeyViolation        // a staging id is already taken
    | UniqueViolation            // a promoted hash is already in the analytic table
    | IndexError                 // a report entry has too few cells
    | TypeError                  // a report entry has no field name, or a non-text row id
    | ModelValidationError       // a response record gets None for a text field
    | ZeroDivisionError          // a percentage over an empty population
    | NoData(brand: string)      // a report query returned no rows

  /** The primary key of the staging table: no two rows share an id. */
  predicate IdsUnique(rows: seq<StagingRow>) {
    forall i, j :: 0 <= i < j < |rows| ==> rows[i].id != rows[j].id
  }

  /** The UNIQUE constraint of the analytic table: no two rows share a hash. */
  predicate HashesUnique(rows: seq<AnalyticRow>) {
    forall i, j :: 0 <= i < j < |rows| ==> rows[i].source.hash != rows[j].source.hash
  }
}
