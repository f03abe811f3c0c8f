/**
 * The pricing report: the query's per-store price indices of the target brand against its
 * competitors, each placed in a market position, and a summary with the average index and the
 * competitiveness verdict.
 */
module Pricing {
  import opened Wrappers
  import opened Records

  /**
   * One row of the pricing query. The join on store, sub-department and section and the brand
   * filter make every name present, and the competitor average is never NULL.
   */
  datatype PriceRow = PriceRow(
    supplier: string, storeName: string, subDepartment: string, section: string,
    supplierAvgPrice: real, competitorAvgPrice: real, priceIndex: real)

  datatype Position = Discount | Market | Premium

  datatype PriceIndex = PriceIndex(
    storeName: string, subDepartment: string, section: string,
    supplierAvgPrice: real, competitorAvgPrice: real, priceIndex: real, marketPosition: Position)

  /** The verdict on the average index: "competitive", "premium" or "discount". */
  datatype Competitiveness = Competitive | PremiumPriced | DiscountPriced

  datatype PricingSummary = PricingSummary(
    supplier: string, totalStoreSegments: nat, averagePriceIndex: real,
    premiumPositions: nat, marketPositions: nat, discountPositions: nat,
    priceCompetitiveness: Competitiveness)

  datatype PricingReport = PricingReport(supplierPricing: seq<PriceIndex>, summary: PricingSummary)

  /** Below 90 is a discount, above 105 a premium, anything between (both ends included) the market. */
  function PositionOf(index: real): (p: Position)
    ensures p == Discount <==> index < 90.0
    ensures p == Premium <==> index > 105.0
    ensures p == Market <==> 90.0 <= index <= 105.0
  {
    if index < 90.0 then Discount
    else if index > 105.0 then Premium
    else Market
  }

  /** Competitive exactly within 90..105 (both ends included), premium above, discount below. */
  function CompetitivenessOf(average: real): (c: Competitiveness)
    ensures c == Competitive <==> 90.0 <= average <= 105.0
    ensures c == PremiumPriced <==> average > 105.0
    ensures c == DiscountPriced <==> average < 90.0
  {
    if 90.0 <= average <= 105.0 then Competitive
    else if average > 105.0 then PremiumPriced
    else DiscountPriced
  }

  /** The verdict on the average uses the same bands as the position of a single row. */
  lemma VerdictMatchesBands(average: real)
    ensures CompetitivenessOf(average) == Competitive <==> PositionOf(average) == Market
    ensures CompetitivenessOf(average) == PremiumPriced <==> PositionOf(average) == Premium
    ensures CompetitivenessOf(average) == DiscountPriced <==> PositionOf(average) == Discount
  {
  }

  function EntryOf(row: PriceRow): PriceIndex {
    PriceIndex(row.storeName, row.subDepartment, row.section, row.supplierAvgPrice, row.competitorAvgPrice,
               row.priceIndex, PositionOf(row.priceIndex))
  }

  function CountAt(s: seq<PriceIndex>, p: Position): (n: nat)
    ensures n <= |s|
    decreases |s|
  {
    if s == [] then 0 else (if s[0].marketPosition == p then 1 else 0) + CountAt(s[1..], p)
  }

  function SumIndex(s: seq<PriceIndex>): real
    decreases |s|
  {
    if s == [] then 0.0 else s[0].priceIndex + SumIndex(s[1..])
  }

  /** Every segment is counted in exactly one of the three positions. */
  lemma {:induction false} PositionCountsAddUp(s: seq<PriceIndex>)
    ensures CountAt(s, Premium) + CountAt(s, Market) + CountAt(s, Discount) == |s|
    decreases |s|
  {
    if s != [] {
      PositionCountsAddUp(s[1..]);
    }
  }

  /** Indices bounded below and above give a sum bounded by the count times the bounds. */
  lemma {:induction false} SumIndexBounds(s: seq<PriceIndex>, lo: real, hi: real)
    requires forall i :: 0 <= i < |s| ==> lo <= s[i].priceIndex <= hi
    ensures lo * |s| as real <= SumIndex(s) <= hi * |s| as real
    decreases |s|
  {
    if s != [] {
      SumIndexBounds(s[1..], lo, hi);
    }
  }

  /** Indices strictly above (below) a bound give a sum strictly above (below) the count times it. */
  lemma {:induction false} SumIndexStrict(s: seq<PriceIndex>, bound: real, above: bool)
    requires |s| > 0
    requires forall i :: 0 <= i < |s| ==> if above then s[i].priceIndex > bound else s[i].priceIndex < bound
    ensures if above then SumIndex(s) > bound * |s| as real else SumIndex(s) < bound * |s| as real
    decreases |s|
  {
    if |s| > 1 {
      SumIndexStrict(s[1..], bound, above);
    }
  }

  function AverageIndex(s: seq<PriceIndex>): (a: real)
    requires |s| > 0
    ensures a * |s| as real == SumIndex(s)
  {
    SumIndex(s) / |s| as real
  }

  /**
   * Uniform segments give the matching verdict: all at market price is competitive, all above
   * 105 is premium, all below 90 is discount.
   */
  lemma UniformSegmentsVerdict(s: seq<PriceIndex>, p: Position)
    requires |s| > 0
    requires forall i :: 0 <= i < |s| ==> PositionOf(s[i].priceIndex) == p
    ensures CompetitivenessOf(AverageIndex(s)) == match p
      case Market => Competitive
      case Premium => PremiumPriced
      case Discount => DiscountPriced
  {
    var n := |s| as real;
    var a := AverageIndex(s);
    match p
    case Market =>
      SumIndexBounds(s, 90.0, 105.0);
      assert 90.0 * n <= a * n <= 105.0 * n;
    case Premium =>
      SumIndexStrict(s, 105.0, true);
      assert a * n > 105.0 * n;
    case Discount =>
      SumIndexStrict(s, 90.0, false);
      assert a * n < 90.0 * n;
  }

  /**
   * `pricing_report`, given the query result: no data when the query returned nothing;
   * otherwise one entry per row, in result order, and a summary whose supplier is the last
   * row's supplier (the loop variable shadows the brand parameter).
   */
  method PricingReportOf(rows: seq<PriceRow>, brand: string) returns (r: Result<PricingReport, Fault>)
    ensures r.Failure? <==> |rows| == 0
    ensures r.Failure? ==> r.error == NoData(brand)
    ensures r.Success? ==>
      && var entries := r.value.supplierPricing;
      && |entries| == |rows|
      && (forall i :: 0 <= i < |rows| ==> entries[i] == EntryOf(rows[i]))
      && r.value.summary.supplier == rows[|rows| - 1].supplier
      && r.value.summary.totalStoreSegments == |rows|
      && r.value.summary.averagePriceIndex * |rows| as real == SumIndex(entries)
      && r.value.summary.premiumPositions == CountAt(entries, Premium)
      && r.value.summary.marketPositions == CountAt(entries, Market)
      && r.value.summary.discountPositions == CountAt(entries, Discount)
      && r.value.summary.priceCompetitiveness == CompetitivenessOf(r.value.summary.averagePriceIndex)
  {
    if |rows| == 0 {
      return Failure(NoData(brand));
    }
    var entries: seq<PriceIndex> := [];
    var supplier := brand;
    var i := 0;
    while i < |rows|
      invariant i <= |rows|
      invariant |entries| == i
      invariant forall k :: 0 <= k < i ==> entries[k] == EntryOf(rows[k])
      invariant i > 0 ==> supplier == rows[i - 1].supplier
    {
      var row := rows[i];
      supplier := row.supplier;
      var position: Position;
      if row.priceIndex < 90.0 {
        position := Discount;
      } else if row.priceIndex > 105.0 {
        position := Premium;
      } else {
        position := Market;
      }
      entries := entries + [PriceIndex(row.storeName, row.subDepartment, row.section, row.supplierAvgPrice,
                                       row.competitorAvgPrice, row.priceIndex, position)];
      i := i + 1;
    }
    var average := AverageIndex(entries);
    var summary := PricingSummary(
      supplier, |entries|, average,
      CountAt(entries, Premium), CountAt(entries, Market), CountAt(entries, Discount),
      CompetitivenessOf(average));
    return Success(PricingReport(entries, summary));
  }
}
