/** One row of the listings table, restricted to the columns the dashboard reads. A missing
    (NaN) cell is `None`; numeric cells are whole numbers. */
module Listings {
  import opened Wrappers

  datatype Listing = Listing(
    price: Option<int>,
    odometer: Option<int>,
    modelYear: Option<int>,
    condition: Option<string>,
    vehicleType: Option<string>,
    daysListed: Option<int>)

  /** A row after `model_year` has been cast to `int`: the year can no longer be missing. */
  datatype YearListing = YearListing(
    price: Option<int>,
    odometer: Option<int>,
    modelYear: int,
    condition: Option<string>,
    vehicleType: Option<string>,
    daysListed: Option<int>)

  /** `astype(int)` raises on a missing value. */
  datatype CastError = IntCastingNaN

  /** The `type` column. */
  function TypeColumn(rows: seq<Listing>): seq<Option<string>> {
    seq(|rows|, i requires 0 <= i < |rows| => rows[i].vehicleType)
  }

  /** The `condition` column. */
  function ConditionColumn(rows: seq<Listing>): seq<Option<string>> {
    seq(|rows|, i requires 0 <= i < |rows| => rows[i].condition)
  }

  /** The row a cast row came from: the year, as a present value, and every other cell as is. */
  function Widen(y: YearListing): (row: Listing)
    ensures row.modelYear.Some?
  {
    Listing(y.price, y.odometer, Some(y.modelYear), y.condition, y.vehicleType, y.daysListed)
  }

  /** Casts the present `model_year` of one row to `int`, leaving the other cells alone. */
  function CastRow(row: Listing): (y: YearListing)
    requires row.modelYear.Some?
    ensures Widen(y) == row
  {
    YearListing(row.price, row.odometer, row.modelYear.value, row.condition, row.vehicleType, row.daysListed)
  }

  lemma CastAfterWiden(y: YearListing)
    ensures CastRow(Widen(y)) == y
  {
  }

  function WidenAll(ys: seq<YearListing>): (rows: seq<Listing>)
    ensures |rows| == |ys|
  {
    seq(|ys|, i requires 0 <= i < |ys| => Widen(ys[i]))
  }

  /** `frame["model_year"] = frame["model_year"].astype(int)`: fails when any year is missing,
      and otherwise rewrites the year of every row and nothing else. */
  function AsIntModelYear(rows: seq<Listing>): (r: Result<seq<YearListing>, CastError>)
    ensures r.Success? <==> forall i :: 0 <= i < |rows| ==> rows[i].modelYear.Some?
    ensures r.Success? ==> WidenAll(r.value) == rows
    ensures r.Success? ==> forall i :: 0 <= i < |rows| ==> r.value[i].modelYear == rows[i].modelYear.value
  {
    if forall i :: 0 <= i < |rows| ==> rows[i].modelYear.Some? then
      Success(seq(|rows|, i requires 0 <= i < |rows| => CastRow(rows[i])))
    else
      Failure(IntCastingNaN)
  }
}
