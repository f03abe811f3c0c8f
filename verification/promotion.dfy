/**
 * The promotion-uplift report: which analytic rows the query considers and how it splits their
 * units into promotional and baseline ones, the uplift of one product group, and the Python
 * post-processing of the query result (minimum-uplift filter, sort, top and bottom ten,
 * summary).
 */
module Promotion {
  import opened Wrappers
  import opened Text
  import opened Records

  // ---------------------------------------------------------------------------------------------
  // Per-row classification in the query

  /** An analytic row the query considers: both prices present. */
  datatype SaleLine = SaleLine(description: Option<string>, section: Option<string>, quantity: int, salePrice: real, rrp: real)

  /** `CONTAINS(LOWER(supplier), brand)`: a NULL supplier matches nothing. */
  predicate SupplierMatches(supplier: Option<string>, brand: string) {
    supplier.Some? && Contains(Lower(supplier.value), brand)
  }

  /** A lower-cased supplier never contains an upper-case letter, so a brand written with one matches no row. */
  lemma UpperCaseBrandMatchesNothing(supplier: Option<string>, brand: string, k: nat)
    requires k < |brand| && IsUpper(brand[k])
    ensures !SupplierMatches(supplier, brand)
  {
    if supplier.Some? {
      var s := Lower(supplier.value);
      forall i: nat | i <= |s| ensures !OccursAt(s, brand, i) {
        if i + |brand| <= |s| {
          assert s[i..i + |brand|][k] == s[i + k];
        }
      }
    }
  }

  /** The rows of the analytic table the query reads for `brand`, as sale lines, in table order. */
  function LinesFor(rows: seq<AnalyticRow>, brand: string): (r: seq<SaleLine>)
    ensures |r| <= |rows|
    ensures forall l :: l in r <==> exists a :: a in rows && a.source.rrp.Some? && a.salePrice.Some? && SupplierMatches(a.source.supplier, brand) && l == LineOf(a)
    decreases |rows|
  {
    if rows == [] then []
    else
      var n := |rows| - 1;
      var a := rows[n];
      assert rows == rows[..n] + [a];
      LinesFor(rows[..n], brand)
      + if a.source.rrp.Some? && a.salePrice.Some? && SupplierMatches(a.source.supplier, brand) then [LineOf(a)] else []
  }

  function LineOf(a: AnalyticRow): SaleLine
    requires a.source.rrp.Some? && a.salePrice.Some?
  {
    SaleLine(a.source.description, a.source.section, if a.source.quantity.Some? then a.source.quantity.value else 0, a.salePrice.value, a.source.rrp.value)
  }

  /** A promotional sale: at most 90% of the recommended price, that is, a discount of at least 10%. */
  predicate IsPromo(l: SaleLine)
    ensures IsPromo(l) <==> l.rrp - l.salePrice >= l.rrp * 0.10
  {
    l.salePrice <= l.rrp * 0.90
  }

  /** A baseline sale: at least 90% of the recommended price, that is, a discount of at most 10%. */
  predicate IsBaseline(l: SaleLine)
    ensures IsBaseline(l) <==> l.rrp - l.salePrice <= l.rrp * 0.10
  {
    l.salePrice >= l.rrp * 0.90
  }

  /** Every line is promotional or baseline, and exactly the lines at 90% are both. */
  lemma ClassificationCovers(l: SaleLine)
    ensures IsPromo(l) || IsBaseline(l)
    ensures IsPromo(l) && IsBaseline(l) <==> l.salePrice == l.rrp * 0.90
  {
  }

  function PromoUnits(lines: seq<SaleLine>): int
    decreases |lines|
  {
    if lines == [] then 0 else (if IsPromo(lines[0]) then lines[0].quantity else 0) + PromoUnits(lines[1..])
  }

  function BaselineUnits(lines: seq<SaleLine>): int
    decreases |lines|
  {
    if lines == [] then 0 else (if IsBaseline(lines[0]) then lines[0].quantity else 0) + BaselineUnits(lines[1..])
  }

  function TotalUnits(lines: seq<SaleLine>): int
    decreases |lines|
  {
    if lines == [] then 0 else lines[0].quantity + TotalUnits(lines[1..])
  }

  /** Units of lines sold at exactly 90% of the recommended price. */
  function BoundaryUnits(lines: seq<SaleLine>): int
    decreases |lines|
  {
    if lines == [] then 0 else (if IsPromo(lines[0]) && IsBaseline(lines[0]) then lines[0].quantity else 0) + BoundaryUnits(lines[1..])
  }

  function PromoTransactions(lines: seq<SaleLine>): (n: nat)
    ensures n <= |lines|
    decreases |lines|
  {
    if lines == [] then 0 else (if IsPromo(lines[0]) then 1 else 0) + PromoTransactions(lines[1..])
  }

  /**
   * The two sums together count every unit once, and the units sold at exactly 90% of the
   * recommended price a second time.
   */
  lemma {:induction false} UnitsCounted(lines: seq<SaleLine>)
    ensures PromoUnits(lines) + BaselineUnits(lines) == TotalUnits(lines) + BoundaryUnits(lines)
    decreases |lines|
  {
    if lines != [] {
      UnitsCounted(lines[1..]);
      ClassificationCovers(lines[0]);
    }
  }

  /** A row of the query result: a product group with its units, uplift and promotional transaction count. */
  datatype UpliftRow = UpliftRow(
    description: Option<string>, section: Option<string>,
    promoUnits: real, baselineUnits: real, upliftPct: real, promoTransactions: int)

  /**
   * The result row of one (description, section) group from its lines, before rounding: none
   * unless the group has both promotional and baseline units.
   */
  function GroupRow(description: Option<string>, section: Option<string>, lines: seq<SaleLine>): (r: Option<UpliftRow>)
    ensures r.Some? <==> PromoUnits(lines) > 0 && BaselineUnits(lines) > 0
    ensures r.Some? ==>
      && r.value.description == description && r.value.section == section
      && r.value.promoUnits == PromoUnits(lines) as real
      && r.value.baselineUnits == BaselineUnits(lines) as real
      && r.value.upliftPct * BaselineUnits(lines) as real == (PromoUnits(lines) - BaselineUnits(lines)) as real * 100.0
      && r.value.promoTransactions == PromoTransactions(lines)
    ensures r.Some? ==> (r.value.upliftPct > 0.0 <==> PromoUnits(lines) > BaselineUnits(lines))
    ensures r.Some? ==> (r.value.upliftPct < 0.0 <==> PromoUnits(lines) < BaselineUnits(lines))
  {
    var p, b := PromoUnits(lines), BaselineUnits(lines);
    if p > 0 && b > 0 then
      var uplift := (p - b) as real / b as real * 100.0;
      assert uplift * b as real == (p - b) as real * 100.0;
      Some(UpliftRow(description, section, p as real, b as real, uplift, PromoTransactions(lines)))
    else None
  }

  // ---------------------------------------------------------------------------------------------
  // Post-processing of the query result

  datatype PromoUplift = PromoUplift(
    productName: string, section: string, promoUnits: real, baselineUnits: real,
    upliftPct: real, totalPromoTransactions: int)

  datatype PromoSummary = PromoSummary(
    totalPromotedProducts: nat, totalPromoUnits: real, totalBaselineUnits: real,
    overallUpliftPct: real, averageUpliftPct: real,
    positiveUpliftCount: nat, negativeUpliftCount: nat)

  datatype PromotionReport = PromotionReport(summary: PromoSummary, topPerformers: seq<PromoUplift>, poorPerformers: seq<PromoUplift>)

  /** Whether a result row passes the optional minimum-uplift filter. */
  predicate Passes(row: UpliftRow, minUplift: Option<real>) {
    minUplift.None? || row.upliftPct >= minUplift.value
  }

  /** The result rows that pass the filter, in result order. */
  function Kept(rows: seq<UpliftRow>, minUplift: Option<real>): (r: seq<UpliftRow>)
    ensures |r| <= |rows|
    ensures minUplift.None? ==> r == rows
    decreases |rows|
  {
    if rows == [] then []
    else
      var n := |rows| - 1;
      assert rows == rows[..n] + [rows[n]];
      Kept(rows[..n], minUplift) + if Passes(rows[n], minUplift) then [rows[n]] else []
  }

  /** Exactly the rows that pass the filter are kept. */
  lemma {:induction false} KeptMembers(rows: seq<UpliftRow>, minUplift: Option<real>)
    ensures forall x :: x in Kept(rows, minUplift) <==> x in rows && Passes(x, minUplift)
    decreases |rows|
  {
    if rows != [] {
      var n := |rows| - 1;
      KeptMembers(rows[..n], minUplift);
      assert rows == rows[..n] + [rows[n]];
    }
  }

  /** The filter on one more row: a step of the loop in `PromotionReportOf`. */
  lemma KeptStep(rows: seq<UpliftRow>, minUplift: Option<real>, i: nat)
    requires i < |rows|
    ensures Kept(rows[..i + 1], minUplift) == Kept(rows[..i], minUplift) + if Passes(rows[i], minUplift) then [rows[i]] else []
  {
    assert rows[..i + 1][..i] == rows[..i];
  }

  predicate Named(rows: seq<UpliftRow>) {
    forall x :: x in rows ==> x.description.Some? && x.section.Some?
  }

  function Entry(row: UpliftRow): PromoUplift
    requires row.description.Some? && row.section.Some?
  {
    PromoUplift(row.description.value, row.section.value, row.promoUnits, row.baselineUnits, row.upliftPct, row.promoTransactions)
  }

  function Entries(rows: seq<UpliftRow>): (r: seq<PromoUplift>)
    requires Named(rows)
    ensures |r| == |rows| && forall i :: 0 <= i < |rows| ==> r[i] == Entry(rows[i])
  {
    seq(|rows|, i requires 0 <= i < |rows| && Named(rows) => Entry(rows[i]))
  }

  /** Inserts `x` before the first entry whose uplift is not above its own. */
  function InsertByUplift(x: PromoUplift, s: seq<PromoUplift>): seq<PromoUplift>
    decreases |s|
  {
    if s == [] || x.upliftPct >= s[0].upliftPct then [x] + s else [s[0]] + InsertByUplift(x, s[1..])
  }

  /** Non-increasing in uplift. */
  predicate SortedByUplift(s: seq<PromoUplift>) {
    forall i, j :: 0 <= i < j < |s| ==> s[i].upliftPct >= s[j].upliftPct
  }

  /** Inserting an entry no higher than a bound into entries no higher than it stays below it. */
  lemma {:induction false} InsertBounded(x: PromoUplift, s: seq<PromoUplift>, k: real)
    requires x.upliftPct <= k
    requires forall i :: 0 <= i < |s| ==> s[i].upliftPct <= k
    ensures forall i :: 0 <= i < |InsertByUplift(x, s)| ==> InsertByUplift(x, s)[i].upliftPct <= k
    decreases |s|
  {
    if s != [] && x.upliftPct < s[0].upliftPct {
      InsertBounded(x, s[1..], k);
    }
  }

  lemma {:induction false} InsertSorted(x: PromoUplift, s: seq<PromoUplift>)
    requires SortedByUplift(s)
    ensures SortedByUplift(InsertByUplift(x, s))
    decreases |s|
  {
    if s != [] && x.upliftPct < s[0].upliftPct {
      InsertSorted(x, s[1..]);
      InsertBounded(x, s[1..], s[0].upliftPct);
      var t := InsertByUplift(x, s[1..]);
      assert InsertByUplift(x, s) == [s[0]] + t;
    }
  }

  lemma {:induction false} InsertPermutes(x: PromoUplift, s: seq<PromoUplift>)
    ensures multiset(InsertByUplift(x, s)) == multiset(s) + multiset{x}
    decreases |s|
  {
    if s != [] && x.upliftPct < s[0].upliftPct {
      InsertPermutes(x, s[1..]);
      assert s == [s[0]] + s[1..];
    }
  }

  /** A non-empty list holds its first entry and the rest. */
  lemma FirstAndRest(s: seq<PromoUplift>)
    requires s != []
    ensures multiset(s) == multiset(s[1..]) + multiset{s[0]}
  {
    assert s == [s[0]] + s[1..];
  }

  /**
   * `sort(key=uplift_pct, reverse=True)`: the same entries, highest uplift first; ties keep
   * their original order (`SortStable`).
   */
  function SortByUplift(s: seq<PromoUplift>): (r: seq<PromoUplift>)
    ensures SortedByUplift(r)
    ensures multiset(r) == multiset(s)
    decreases |s|
  {
    if s == [] then []
    else
      var t := SortByUplift(s[1..]);
      InsertSorted(s[0], t);
      InsertPermutes(s[0], t);
      FirstAndRest(s);
      InsertByUplift(s[0], t)
  }

  /** The entries with uplift `v`, in order. */
  function WithUplift(s: seq<PromoUplift>, v: real): seq<PromoUplift>
    decreases |s|
  {
    if s == [] then [] else (if s[0].upliftPct == v then [s[0]] else []) + WithUplift(s[1..], v)
  }

  lemma {:induction false} InsertStable(x: PromoUplift, s: seq<PromoUplift>, v: real)
    ensures WithUplift(InsertByUplift(x, s), v) == (if x.upliftPct == v then [x] else []) + WithUplift(s, v)
    decreases |s|
  {
    var own := if x.upliftPct == v then [x] else [];
    if s == [] || x.upliftPct >= s[0].upliftPct {
      var t := [x] + s;
      assert t[0] == x && t[1..] == s;
      assert InsertByUplift(x, s) == t;
      assert WithUplift(t, v) == own + WithUplift(s, v);
    } else {
      var head := if s[0].upliftPct == v then [s[0]] else [];
      var u := InsertByUplift(x, s[1..]);
      InsertStable(x, s[1..], v);
      assert WithUplift(u, v) == own + WithUplift(s[1..], v);
      var t := [s[0]] + u;
      assert t[0] == s[0] && t[1..] == u;
      assert InsertByUplift(x, s) == t;
      assert WithUplift(t, v) == head + (own + WithUplift(s[1..], v));
      assert WithUplift(s, v) == head + WithUplift(s[1..], v);
      if x.upliftPct == v {
        assert head == [];
      } else {
        assert own == [];
      }
    }
  }

  /** The sort is stable: entries with equal uplift keep their relative order. */
  lemma {:induction false} SortStable(s: seq<PromoUplift>, v: real)
    ensures WithUplift(SortByUplift(s), v) == WithUplift(s, v)
    decreases |s|
  {
    if s != [] {
      SortStable(s[1..], v);
      InsertStable(s[0], SortByUplift(s[1..]), v);
    }
  }

  function SumPromo(s: seq<PromoUplift>): real
    decreases |s|
  {
    if s == [] then 0.0 else s[0].promoUnits + SumPromo(s[1..])
  }

  function SumBaseline(s: seq<PromoUplift>): real
    decreases |s|
  {
    if s == [] then 0.0 else s[0].baselineUnits + SumBaseline(s[1..])
  }

  function SumUplift(s: seq<PromoUplift>): real
    decreases |s|
  {
    if s == [] then 0.0 else s[0].upliftPct + SumUplift(s[1..])
  }

  function CountPositive(s: seq<PromoUplift>): (n: nat)
    ensures n <= |s|
    decreases |s|
  {
    if s == [] then 0 else (if s[0].upliftPct > 0.0 then 1 else 0) + CountPositive(s[1..])
  }

  function CountNegative(s: seq<PromoUplift>): (n: nat)
    ensures n <= |s|
    decreases |s|
  {
    if s == [] then 0 else (if s[0].upliftPct < 0.0 then 1 else 0) + CountNegative(s[1..])
  }

  /** The positions of the entries with a positive uplift. */
  function PositiveAt(s: seq<PromoUplift>): set<nat> {
    set i | 0 <= i < |s| && s[i].upliftPct > 0.0
  }

  /** The positions of the entries with a negative uplift. */
  function NegativeAt(s: seq<PromoUplift>): set<nat> {
    set i | 0 <= i < |s| && s[i].upliftPct < 0.0
  }

  /** From position `k` on, `CountPositive` counts the positions whose uplift is above 0. */
  lemma {:induction false} PositiveFrom(s: seq<PromoUplift>, k: nat)
    requires k <= |s|
    ensures CountPositive(s[k..]) == |set i | k <= i < |s| && s[i].upliftPct > 0.0|
    decreases |s| - k
  {
    var a := set i | k <= i < |s| && s[i].upliftPct > 0.0;
    if k == |s| {
      assert a == {};
    } else {
      PositiveFrom(s, k + 1);
      assert s[k..][1..] == s[k + 1..];
      var b := set i | k + 1 <= i < |s| && s[i].upliftPct > 0.0;
      if s[k].upliftPct > 0.0 {
        assert a == b + {k};
      } else {
        assert a == b;
      }
    }
  }

  /** From position `k` on, `CountNegative` counts the positions whose uplift is below 0. */
  lemma {:induction false} NegativeFrom(s: seq<PromoUplift>, k: nat)
    requires k <= |s|
    ensures CountNegative(s[k..]) == |set i | k <= i < |s| && s[i].upliftPct < 0.0|
    decreases |s| - k
  {
    var a := set i | k <= i < |s| && s[i].upliftPct < 0.0;
    if k == |s| {
      assert a == {};
    } else {
      NegativeFrom(s, k + 1);
      assert s[k..][1..] == s[k + 1..];
      var b := set i | k + 1 <= i < |s| && s[i].upliftPct < 0.0;
      if s[k].upliftPct < 0.0 {
        assert a == b + {k};
      } else {
        assert a == b;
      }
    }
  }

  /** The sign counts are the numbers of entries with a positive and with a negative uplift. */
  lemma SignCounts(s: seq<PromoUplift>)
    ensures CountPositive(s) == |PositiveAt(s)|
    ensures CountNegative(s) == |NegativeAt(s)|
  {
    PositiveFrom(s, 0);
    NegativeFrom(s, 0);
    assert s[0..] == s;
  }

  /** No entry is both positive and negative: the two counts together never exceed the entries. */
  lemma {:induction false} SignCountsBounded(s: seq<PromoUplift>)
    ensures CountPositive(s) + CountNegative(s) <= |s|
    decreases |s|
  {
    if s != [] {
      SignCountsBounded(s[1..]);
    }
  }

  lemma {:induction false} InsertKeepsTotals(x: PromoUplift, s: seq<PromoUplift>)
    ensures var t := InsertByUplift(x, s);
      && SumPromo(t) == x.promoUnits + SumPromo(s)
      && SumBaseline(t) == x.baselineUnits + SumBaseline(s)
      && SumUplift(t) == x.upliftPct + SumUplift(s)
      && CountPositive(t) == (if x.upliftPct > 0.0 then 1 else 0) + CountPositive(s)
      && CountNegative(t) == (if x.upliftPct < 0.0 then 1 else 0) + CountNegative(s)
    decreases |s|
  {
    if s != [] && x.upliftPct < s[0].upliftPct {
      InsertKeepsTotals(x, s[1..]);
      assert ([s[0]] + InsertByUplift(x, s[1..]))[1..] == InsertByUplift(x, s[1..]);
    } else {
      assert ([x] + s)[1..] == s;
    }
  }

  /** The summary figures do not depend on the order: sorting keeps every sum and count. */
  lemma {:induction false} SortKeepsTotals(s: seq<PromoUplift>)
    ensures var t := SortByUplift(s);
      && SumPromo(t) == SumPromo(s) && SumBaseline(t) == SumBaseline(s) && SumUplift(t) == SumUplift(s)
      && CountPositive(t) == CountPositive(s) && CountNegative(t) == CountNegative(s)
    decreases |s|
  {
    if s != [] {
      SortKeepsTotals(s[1..]);
      InsertKeepsTotals(s[0], SortByUplift(s[1..]));
    }
  }

  function Min(a: int, b: int): int {
    if a <= b then a else b
  }

  /** `uplifts[:10]` */
  function Top(s: seq<PromoUplift>): (r: seq<PromoUplift>)
    ensures |r| == Min(10, |s|)
    ensures forall i :: 0 <= i < |r| ==> r[i] == s[i]
  {
    s[..Min(10, |s|)]
  }

  /** `uplifts[-10:][::-1]` */
  function Poor(s: seq<PromoUplift>): (r: seq<PromoUplift>)
    ensures |r| == Min(10, |s|)
    ensures forall i :: 0 <= i < |r| ==> r[i] == s[|s| - 1 - i]
  {
    var tail := s[|s| - Min(10, |s|)..];
    seq(|tail|, i requires 0 <= i < |tail| => tail[|tail| - 1 - i])
  }

  /**
   * On a sorted list, the top performers are the ten highest (or all) and come first in the
   * list, and the poor performers are the ten lowest (or all), lowest first.
   */
  lemma TopAndPoor(s: seq<PromoUplift>)
    requires SortedByUplift(s)
    ensures |Top(s)| == |Poor(s)| == Min(10, |s|)
    ensures forall i, j :: 0 <= i < |Top(s)| && |Top(s)| <= j < |s| ==> Top(s)[i].upliftPct >= s[j].upliftPct
    ensures forall i, j :: 0 <= i < j < |Poor(s)| ==> Poor(s)[i].upliftPct <= Poor(s)[j].upliftPct
    ensures forall i, j :: 0 <= i < |Poor(s)| && 0 <= j < |s| - |Poor(s)| ==> s[j].upliftPct >= Poor(s)[i].upliftPct
    ensures |s| <= 10 ==> Top(s) == s
  {
  }

  /** The overall uplift: the relative excess of promotional over baseline units, 0 without baseline units. */
  function OverallUplift(promo: real, baseline: real): (r: real)
    ensures baseline <= 0.0 ==> r == 0.0
    ensures baseline > 0.0 ==> r * baseline == (promo - baseline) * 100.0
  {
    if baseline > 0.0 then
      var q := (promo - baseline) / baseline;
      assert q * baseline == promo - baseline;
      q * 100.0
    else 0.0
  }

  /** The mean of `count` uplifts summing to `sum`, 0 for none. */
  function AverageUplift(sum: real, count: nat): (r: real)
    ensures count == 0 ==> r == 0.0
    ensures count > 0 ==> r * count as real == sum
  {
    if count > 0 then sum / count as real else 0.0
  }

  /**
   * The summary of the sorted entries: their number, unit sums, overall and average uplift, and
   * the numbers of entries with a positive and with a negative uplift.
   */
  function SummaryOf(s: seq<PromoUplift>): (r: PromoSummary)
    ensures r.totalPromotedProducts == |s|
    ensures r.totalPromoUnits == SumPromo(s) && r.totalBaselineUnits == SumBaseline(s)
    ensures r.positiveUpliftCount == |PositiveAt(s)|
    ensures r.negativeUpliftCount == |NegativeAt(s)|
    ensures r.totalBaselineUnits > 0.0 ==> r.overallUpliftPct * r.totalBaselineUnits == (r.totalPromoUnits - r.totalBaselineUnits) * 100.0
    ensures r.totalBaselineUnits <= 0.0 ==> r.overallUpliftPct == 0.0
    ensures |s| > 0 ==> r.averageUpliftPct * |s| as real == SumUplift(s)
    ensures r.positiveUpliftCount + r.negativeUpliftCount <= |s|
  {
    SignCountsBounded(s);
    SignCounts(s);
    PromoSummary(
      |s|, SumPromo(s), SumBaseline(s),
      OverallUplift(SumPromo(s), SumBaseline(s)),
      AverageUplift(SumUplift(s), |s|),
      CountPositive(s), CountNegative(s))
  }

  /**
   * `promotion_report`, given the query result: no data when the query returned nothing;
   * otherwise the filtered entries, sorted by uplift, their top and bottom ten and summary.
   * A kept row with a NULL name cannot become a response record.
   */
  method PromotionReportOf(rows: seq<UpliftRow>, brand: string, minUplift: Option<real>)
    returns (r: Result<PromotionReport, Fault>)
    ensures |rows| == 0 ==> r == Failure(NoData(brand))
    ensures |rows| > 0 ==> (r.Success? <==> Named(Kept(rows, minUplift)))
    ensures |rows| > 0 && r.Failure? ==> r.error == ModelValidationError
    ensures r.Success? ==>
      && Named(Kept(rows, minUplift))
      && var sorted := SortByUplift(Entries(Kept(rows, minUplift)));
      && r.value.topPerformers == Top(sorted)
      && r.value.poorPerformers == Poor(sorted)
      && r.value.summary == SummaryOf(sorted)
  {
    if |rows| == 0 {
      return Failure(NoData(brand));
    }
    var uplifts: seq<PromoUplift> := [];
    var i := 0;
    while i < |rows|
      invariant i <= |rows|
      invariant Named(Kept(rows[..i], minUplift))
      invariant uplifts == Entries(Kept(rows[..i], minUplift))
    {
      var row := rows[i];
      KeptStep(rows, minUplift, i);
      if Passes(row, minUplift) {
        if row.description.None? || row.section.None? {
          KeptMembers(rows, minUplift);
          assert row in rows;
          return Failure(ModelValidationError);
        }
        EntriesAppend(Kept(rows[..i], minUplift), row);
        uplifts := uplifts + [Entry(row)];
      }
      i := i + 1;
    }
    assert rows[..i] == rows;
    uplifts := SortByUplift(uplifts);
    return Success(PromotionReport(SummaryOf(uplifts), Top(uplifts), Poor(uplifts)));
  }

  lemma EntriesAppend(kept: seq<UpliftRow>, row: UpliftRow)
    requires Named(kept) && row.description.Some? && row.section.Some?
    ensures Named(kept + [row])
    ensures Entries(kept + [row]) == Entries(kept) + [Entry(row)]
  {
  }

  /**
   * When the filter keeps nothing the report is still produced, with no performers and the
   * zero fallbacks for both uplift figures.
   */
  lemma NothingKept(rows: seq<UpliftRow>, minUplift: Option<real>)
    requires Kept(rows, minUplift) == []
    ensures var s := SortByUplift(Entries(Kept(rows, minUplift)));
      && Top(s) == [] && Poor(s) == []
      && SummaryOf(s).overallUpliftPct == 0.0 && SummaryOf(s).averageUpliftPct == 0.0
  {
    assert Entries(Kept(rows, minUplift)) == [];
  }
}
