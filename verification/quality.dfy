/**
 * The data-quality report: the per-store and per-supplier query results, already aggregated,
 * turned into lists of unreliable stores and suppliers with their issues, plus a summary with
 * the counts and a health label for each side.
 */
module Quality {
  import opened Wrappers
  import opened Records

  /**
   * One row of the store query: the store, its transaction count, its counts of rows with a
   * NULL, a zero and a negative amount, and the average and standard deviation of its unit
   * price (NULL when there is nothing to average).
   */
  datatype StoreStats = StoreStats(
    storeName: Option<string>, total: int, nulls: int, zeros: int, negatives: int,
    avgPrice: Option<real>, volatility: Option<real>)

  /**
   * One row of the supplier query: the supplier, its transaction count, the number of distinct
   * stores it sells in, and its counts of rows with a NULL amount, a zero or NULL amount, and a
   * NULL or zero recommended price.
   */
  datatype SupplierStats = SupplierStats(
    supplier: Option<string>, total: int, coverage: int, nulls: int, zeros: int, missingRrp: int)

  /** The issues the report can name, with the counts their texts quote. */
  datatype Issue =
    | NegativeValues(negatives: int)
    | Nulls(nulls: int)
    | ZeroSales(zeros: int, outOf: int)
    | HighVolatility
    | MissingRrp(missing: int)
    | LowCoverage(stores: int)

  datatype StoreIssue = StoreIssue(
    storeName: string, issueType: string, totalTransactions: int, zeroSales: int, negativeValues: int, issues: seq<Issue>)

  datatype SupplierIssue = SupplierIssue(
    supplier: string, issueType: string, totalTransactions: int, storeCoverage: int, issues: seq<Issue>)

  datatype Health = Good | NeedsAttention

  datatype Summary = Summary(
    totalStores: nat, totalSuppliers: nat,
    unreliableStores: nat, unreliableStoresPct: real,
    unreliableSuppliers: nat, unreliableSuppliersPct: real,
    storeHealth: Option<Health>, supplierHealth: Option<Health>)

  datatype Report = Report(stores: seq<StoreIssue>, suppliers: seq<SupplierIssue>, summary: Summary)

  /** Python truthiness of a nullable number: present and not zero. */
  predicate Truthy(x: Option<real>) {
    x.Some? && x.value != 0.0
  }

  /** `count > total * share`, the share written as a fraction n / d. */
  predicate Exceeds(count: int, total: int, n: nat, d: nat)
    requires d > 0
  {
    count * d > total * n
  }

  /**
   * The issues of one store, in the order they are checked: negative values, more than 20%
   * NULLs, more than 20% zero sales, and a volatility above twice the average price when both
   * are truthy.
   */
  function StoreIssues(row: StoreStats): (r: seq<Issue>)
    ensures NegativeValues(row.negatives) in r <==> row.negatives > 0
    ensures Nulls(row.nulls) in r <==> row.nulls as real > row.total as real * 0.2
    ensures ZeroSales(row.zeros, row.total) in r <==> row.zeros as real > row.total as real * 0.2
    ensures HighVolatility in r <==>
      Truthy(row.volatility) && Truthy(row.avgPrice) && row.volatility.value > row.avgPrice.value * 2.0
    ensures forall x :: x in r ==>
      x == NegativeValues(row.negatives) || x == Nulls(row.nulls) || x == ZeroSales(row.zeros, row.total) || x == HighVolatility
  {
    (if row.negatives > 0 then [NegativeValues(row.negatives)] else [])
    + (if Exceeds(row.nulls, row.total, 1, 5) then [Nulls(row.nulls)] else [])
    + (if Exceeds(row.zeros, row.total, 1, 5) then [ZeroSales(row.zeros, row.total)] else [])
    + (if Truthy(row.volatility) && Truthy(row.avgPrice) && row.volatility.value > row.avgPrice.value * 2.0
       then [HighVolatility] else [])
  }

  /**
   * The issues of one supplier, in the order they are checked: more than 20% missing
   * recommended prices, NULLs or zero sales, and fewer than three stores.
   */
  function SupplierIssues(row: SupplierStats): (r: seq<Issue>)
    ensures MissingRrp(row.missingRrp) in r <==> row.missingRrp as real > row.total as real * 0.2
    ensures Nulls(row.nulls) in r <==> row.nulls as real > row.total as real * 0.2
    ensures ZeroSales(row.zeros, row.total) in r <==> row.zeros as real > row.total as real * 0.2
    ensures LowCoverage(row.coverage) in r <==> row.coverage < 3
    ensures forall x :: x in r ==>
      x == MissingRrp(row.missingRrp) || x == Nulls(row.nulls) || x == ZeroSales(row.zeros, row.total) || x == LowCoverage(row.coverage)
  {
    (if Exceeds(row.missingRrp, row.total, 1, 5) then [MissingRrp(row.missingRrp)] else [])
    + (if Exceeds(row.nulls, row.total, 1, 5) then [Nulls(row.nulls)] else [])
    + (if Exceeds(row.zeros, row.total, 1, 5) then [ZeroSales(row.zeros, row.total)] else [])
    + (if row.coverage < 3 then [LowCoverage(row.coverage)] else [])
  }

  /**
   * The health label of one side: none when its query returned no rows, otherwise good exactly
   * when the listed count is below a tenth of the distinct total.
   */
  function HealthOf(listed: nat, total: nat): (h: Option<Health>)
    ensures h.None? <==> listed == 0
    ensures h == Some(Good) <==> listed > 0 && (listed as real) < total as real * 0.1
  {
    if listed == 0 then None
    else if Exceeds(total, listed, 10, 1) then Some(Good)
    else Some(NeedsAttention)
  }

  /** The store query's HAVING clause: more than 10% zero sales, a negative value, or a volatility above twice the average. */
  predicate StoreHaving(row: StoreStats)
    ensures row.total >= 0 &&
      (NegativeValues(row.negatives) in StoreIssues(row) || ZeroSales(row.zeros, row.total) in StoreIssues(row) || HighVolatility in StoreIssues(row))
      ==> StoreHaving(row)
  {
    || row.zeros as real > row.total as real * 0.1
    || row.negatives > 0
    || (row.volatility.Some? && row.avgPrice.Some? && row.volatility.value > row.avgPrice.value * 2.0)
  }

  /** The supplier query's HAVING clause: more than 15% zero sales or missing prices, or fewer than three stores. */
  predicate SupplierHaving(row: SupplierStats)
    ensures row.total >= 0 &&
      (MissingRrp(row.missingRrp) in SupplierIssues(row) || ZeroSales(row.zeros, row.total) in SupplierIssues(row) || LowCoverage(row.coverage) in SupplierIssues(row))
      ==> SupplierHaving(row)
  {
    || row.zeros as real > row.total as real * 0.15
    || row.missingRrp as real > row.total as real * 0.15
    || row.coverage < 3
  }

  /**
   * The query lets a store through on a lower zero-sales threshold than the issue check uses,
   * so a store can be listed as unreliable with no issue at all.
   */
  lemma StoreListedWithoutIssues()
    ensures exists row :: StoreHaving(row) && StoreIssues(row) == []
  {
    var row := StoreStats(Some("s"), 10, 0, 2, 0, None, None);
    assert StoreHaving(row) && StoreIssues(row) == [];
  }

  /** The same holds for suppliers, between 15% and 20% zero sales. */
  lemma SupplierListedWithoutIssues()
    ensures exists row :: SupplierHaving(row) && SupplierIssues(row) == []
  {
    var row := SupplierStats(Some("s"), 100, 3, 0, 18, 0);
    assert SupplierHaving(row) && SupplierIssues(row) == [];
  }

  /**
   * Python's truthiness test drops the volatility flag when the standard deviation or the
   * average is exactly zero, even where the query's own comparison holds.
   */
  lemma ZeroAverageNotFlagged(row: StoreStats)
    requires row.avgPrice == Some(0.0) && row.volatility.Some? && row.volatility.value > 0.0
    ensures StoreHaving(row)
    ensures HighVolatility !in StoreIssues(row)
  {
  }

  /**
   * The store query's HAVING clause does not look at NULLs, so a store whose only issue is its
   * NULL share is never listed.
   */
  lemma StoreNullsNotListed()
    ensures exists row: StoreStats :: StoreIssues(row) == [Nulls(row.nulls)] && !StoreHaving(row)
  {
    var row := StoreStats(Some("s"), 10, 5, 0, 0, Some(1.0), Some(0.0));
    assert StoreIssues(row) == [Nulls(5)] && !StoreHaving(row);
  }

  function StoreEntry(row: StoreStats): StoreIssue
    requires row.storeName.Some?
  {
    StoreIssue(row.storeName.value, "data_quality", row.total, row.zeros, row.negatives, StoreIssues(row))
  }

  function SupplierEntry(row: SupplierStats): SupplierIssue
    requires row.supplier.Some?
  {
    SupplierIssue(row.supplier.value, "data quality", row.total, row.coverage, SupplierIssues(row))
  }

  predicate AllNamed(stores: seq<StoreStats>, suppliers: seq<SupplierStats>) {
    && (forall i :: 0 <= i < |stores| ==> stores[i].storeName.Some?)
    && (forall i :: 0 <= i < |suppliers| ==> suppliers[i].supplier.Some?)
  }

  /**
   * `quality_report`, given the two query results and the distinct store and supplier counts:
   * every row becomes an entry, issues or not. A row without a name cannot become a response
   * record; an empty staging table makes the percentages divide by zero.
   */
  method QualityReport(stores: seq<StoreStats>, suppliers: seq<SupplierStats>, totalStores: nat, totalSuppliers: nat)
    returns (r: Result<Report, Fault>)
    ensures r.Success? <==> AllNamed(stores, suppliers) && totalStores > 0 && totalSuppliers > 0
    ensures r.Failure? ==> r.error == (if AllNamed(stores, suppliers) then ZeroDivisionError else ModelValidationError)
    ensures r.Success? ==>
      && |r.value.stores| == |stores|
      && (forall i :: 0 <= i < |stores| ==> r.value.stores[i] == StoreEntry(stores[i]))
      && |r.value.suppliers| == |suppliers|
      && (forall i :: 0 <= i < |suppliers| ==> r.value.suppliers[i] == SupplierEntry(suppliers[i]))
      && r.value.summary.totalStores == totalStores
      && r.value.summary.totalSuppliers == totalSuppliers
      && r.value.summary.unreliableStores == |stores|
      && r.value.summary.unreliableSuppliers == |suppliers|
      && r.value.summary.unreliableStoresPct * totalStores as real == |stores| as real * 100.0
      && r.value.summary.unreliableSuppliersPct * totalSuppliers as real == |suppliers| as real * 100.0
      && r.value.summary.storeHealth == HealthOf(|stores|, totalStores)
      && r.value.summary.supplierHealth == HealthOf(|suppliers|, totalSuppliers)
  {
    var unreliableStores: seq<StoreIssue> := [];
    var i := 0;
    while i < |stores|
      invariant i <= |stores|
      invariant |unreliableStores| == i
      invariant forall k :: 0 <= k < i ==> stores[k].storeName.Some? && unreliableStores[k] == StoreEntry(stores[k])
    {
      var row := stores[i];
      if row.storeName.None? {
        return Failure(ModelValidationError);
      }
      unreliableStores := unreliableStores + [StoreIssue(row.storeName.value, "data_quality", row.total, row.zeros, row.negatives, StoreIssues(row))];
      i := i + 1;
    }
    var storeHealth: Option<Health> := None;
    if |stores| > 0 {
      storeHealth := Some(if (|unreliableStores| as real) < totalStores as real * 0.1 then Good else NeedsAttention);
    }

    var unreliableSuppliers: seq<SupplierIssue> := [];
    var j := 0;
    while j < |suppliers|
      invariant j <= |suppliers|
      invariant |unreliableSuppliers| == j
      invariant forall k :: 0 <= k < j ==> suppliers[k].supplier.Some? && unreliableSuppliers[k] == SupplierEntry(suppliers[k])
    {
      var row := suppliers[j];
      if row.supplier.None? {
        return Failure(ModelValidationError);
      }
      unreliableSuppliers := unreliableSuppliers + [SupplierIssue(row.supplier.value, "data quality", row.total, row.coverage, SupplierIssues(row))];
      j := j + 1;
    }
    var supplierHealth: Option<Health> := None;
    if |suppliers| > 0 {
      supplierHealth := Some(if (|unreliableSuppliers| as real) < totalSuppliers as real * 0.1 then Good else NeedsAttention);
    }

    if totalStores == 0 || totalSuppliers == 0 {
      return Failure(ZeroDivisionError);
    }
    var storesPct := |unreliableStores| as real / totalStores as real * 100.0;
    var suppliersPct := |unreliableSuppliers| as real / totalSuppliers as real * 100.0;
    var summary := Summary(totalStores, totalSuppliers, |unreliableStores|, storesPct, |unreliableSuppliers|, suppliersPct, storeHealth, supplierHealth);
    return Success(Report(unreliableStores, unreliableSuppliers, summary));
  }
}
