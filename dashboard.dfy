/** The row-selection pipeline of the dashboard script: the option lists of the two sidebar
    selectors, the type and condition filters that narrow the table to the working subset, and
    the four bounded views the charts are drawn from. */
module Dashboard {
  import opened Wrappers
  import opened StringOrder
  import opened Series
  import opened Frames
  import opened Listings

  /** The sentinel of the type selector that switches the type filter off. */
  const ALL_TYPES: string := "All"

  const MAX_PRICE: int := 100_000
  const MAX_PRICE_HEATMAP: int := 50_000
  const MAX_ODOMETER: int := 200_000
  const MAX_DAYS_LISTED: int := 120
  const FIRST_MODEL_YEAR: int := 1990
  const LAST_MODEL_YEAR: int := 2022

  ghost predicate HasType(rows: seq<Listing>, t: string) {
    exists i :: 0 <= i < |rows| && rows[i].vehicleType == Some(t)
  }

  ghost predicate HasCondition(rows: seq<Listing>, c: string) {
    exists i :: 0 <= i < |rows| && rows[i].condition == Some(c)
  }

  // ---------------------------------------------------------------------------------------
  // Type selector and type filter
  // ---------------------------------------------------------------------------------------

  /** The type selector's options: the sentinel, then every type that occurs, ascending, once. */
  function TypeOptions(rows: seq<Listing>): (opts: seq<string>)
    ensures |opts| >= 1 && opts[0] == ALL_TYPES
    ensures StrictlyIncreasing(opts[1..])
    ensures forall t :: t in opts[1..] <==> HasType(rows, t)
  {
    var col := TypeColumn(rows);
    var types := SortedUnique(col);
    assert forall t :: Some(t) in col <==> HasType(rows, t) by {
      forall t
        ensures Some(t) in col <==> HasType(rows, t)
      {
        if HasType(rows, t) {
          var i :| 0 <= i < |rows| && rows[i].vehicleType == Some(t);
          assert col[i] == Some(t);
        }
      }
    }
    assert ([ALL_TYPES] + types)[1..] == types;
    [ALL_TYPES] + types
  }

  /** The option list repeats nothing exactly when no listing has the sentinel as its type. */
  lemma TypeOptionsRepeatNothing(rows: seq<Listing>)
    ensures NoRepeats(TypeOptions(rows)) <==> !HasType(rows, ALL_TYPES)
  {
    var opts := TypeOptions(rows);
    if HasType(rows, ALL_TYPES) {
      var k :| 0 <= k < |opts| - 1 && opts[1..][k] == ALL_TYPES;
      assert opts[0] == opts[k + 1];
    } else {
      StrictlyIncreasingHasNoRepeats(opts[1..]);
      forall i, j | 0 <= i < j < |opts|
        ensures opts[i] != opts[j]
      {
        if i == 0 {
          assert opts[j] in opts[1..];
        } else {
          assert opts[1..][i - 1] != opts[1..][j - 1];
        }
      }
    }
  }

  /** The type step: the sentinel keeps the table; any other choice keeps exactly the rows of
      that type, in order. */
  function TypeStep(rows: seq<Listing>, choice: string): (r: seq<Listing>)
    ensures choice == ALL_TYPES ==> r == rows
    ensures choice != ALL_TYPES ==> forall i :: 0 <= i < |r| ==> r[i].vehicleType == Some(choice)
    ensures choice != ALL_TYPES ==> ExactlyWhere(r, rows, (row: Listing) => row.vehicleType == Some(choice))
  {
    if choice != ALL_TYPES then Select(rows, (row: Listing) => Equals(row.vehicleType, choice)) else rows
  }

  // ---------------------------------------------------------------------------------------
  // Condition selector and condition filter
  // ---------------------------------------------------------------------------------------

  /** The condition selector's options, which are also its default selection: the conditions
      that occur in the type-filtered rows, ascending, once each. */
  function ConditionOptions(rows: seq<Listing>): (opts: seq<string>)
    ensures StrictlyIncreasing(opts)
    ensures forall c :: c in opts <==> HasCondition(rows, c)
  {
    var col := ConditionColumn(rows);
    assert forall c :: Some(c) in col <==> HasCondition(rows, c) by {
      forall c
        ensures Some(c) in col <==> HasCondition(rows, c)
      {
        if HasCondition(rows, c) {
          var i :| 0 <= i < |rows| && rows[i].condition == Some(c);
          assert col[i] == Some(c);
        }
      }
    }
    SortedUnique(col)
  }

  /** The condition step keeps exactly the rows whose condition is present and selected. */
  function ConditionStep(rows: seq<Listing>, selected: seq<string>): (r: seq<Listing>)
    ensures forall i :: 0 <= i < |r| ==> r[i].condition.Some? && r[i].condition.value in selected
    ensures ExactlyWhere(r, rows, (row: Listing) => row.condition.Some? && row.condition.value in selected)
    ensures selected == [] ==> r == []
  {
    Select(rows, (row: Listing) => IsIn(row.condition, selected))
  }

  /** With the default selection, the condition step removes the rows without a condition and
      nothing else. */
  lemma DefaultSelectionDropsOnlyMissing(rows: seq<Listing>)
    ensures ExactlyWhere(ConditionStep(rows, ConditionOptions(rows)), rows, (row: Listing) => row.condition.Some?)
    ensures (forall i :: 0 <= i < |rows| ==> rows[i].condition.Some?) ==>
              ConditionStep(rows, ConditionOptions(rows)) == rows
  {
    var opts := ConditionOptions(rows);
    var r := ConditionStep(rows, opts);
    forall x: Listing
      ensures multiset(r)[x] == if x.condition.Some? then multiset(rows)[x] else 0
    {
      if x.condition.Some? && multiset(rows)[x] > 0 {
        assert x in rows;
        var i :| 0 <= i < |rows| && rows[i] == x;
        assert HasCondition(rows, x.condition.value);
      }
    }
    if forall i :: 0 <= i < |rows| ==> rows[i].condition.Some? {
      SelectAll(rows, (row: Listing) => IsIn(row.condition, opts));
    }
  }

  // ---------------------------------------------------------------------------------------
  // The four bounded views
  // ---------------------------------------------------------------------------------------

  /** Mask of the price-by-condition histogram. */
  predicate PriceByConditionMask(row: Listing) {
    AtMost(row.price, MAX_PRICE) && NotNa(row.condition)
  }

  /** Mask of the price-versus-odometer heatmap. */
  predicate HeatmapMask(row: Listing) {
    AtMost(row.odometer, MAX_ODOMETER) && AtMost(row.price, MAX_PRICE_HEATMAP)
  }

  /** Mask of the model-year boxplot. */
  predicate ModelYearMask(row: Listing) {
    AtLeast(row.modelYear, FIRST_MODEL_YEAR) && AtMost(row.modelYear, LAST_MODEL_YEAR) && AtMost(row.price, MAX_PRICE)
  }

  /** `dropna(subset=["model_year", "price"])`. */
  predicate YearAndPricePresent(row: Listing) {
    NotNa(row.modelYear) && NotNa(row.price)
  }

  /** Mask of the listing-duration histogram. */
  predicate DaysListedMask(row: Listing) {
    AtMost(row.daysListed, MAX_DAYS_LISTED) && NotNa(row.condition)
  }

  /** Rows with a present price of at most MAX_PRICE and a present condition, and all such rows. */
  function PriceByConditionView(df: seq<Listing>): (v: seq<Listing>)
    ensures forall i :: 0 <= i < |v| ==> v[i].price.Some? && v[i].price.value <= MAX_PRICE && v[i].condition.Some?
    ensures ExactlyWhere(v, df, (row: Listing) => row.price.Some? && row.price.value <= MAX_PRICE && row.condition.Some?)
  {
    Select(df, PriceByConditionMask)
  }

  /** Rows with a present odometer of at most MAX_ODOMETER and a present price of at most
      MAX_PRICE_HEATMAP, and all such rows. */
  function HeatmapView(df: seq<Listing>): (v: seq<Listing>)
    ensures forall i :: 0 <= i < |v| ==>
              v[i].odometer.Some? && v[i].odometer.value <= MAX_ODOMETER &&
              v[i].price.Some? && v[i].price.value <= MAX_PRICE_HEATMAP
    ensures ExactlyWhere(v, df, (row: Listing) =>
              row.odometer.Some? && row.odometer.value <= MAX_ODOMETER &&
              row.price.Some? && row.price.value <= MAX_PRICE_HEATMAP)
  {
    Select(df, HeatmapMask)
  }

  /** The model-year view: the cast cannot fail, every year lies in the plotted range, every
      price is present and at most MAX_PRICE, and before the cast the rows are exactly the rows
      of `df` that meet those bounds. */
  function ModelYearView(df: seq<Listing>): (v: Result<seq<YearListing>, CastError>)
    ensures v.Success?
    ensures forall i :: 0 <= i < |v.value| ==>
              FIRST_MODEL_YEAR <= v.value[i].modelYear <= LAST_MODEL_YEAR &&
              v.value[i].price.Some? && v.value[i].price.value <= MAX_PRICE
    ensures ExactlyWhere(WidenAll(v.value), df, (row: Listing) =>
              row.modelYear.Some? && FIRST_MODEL_YEAR <= row.modelYear.value <= LAST_MODEL_YEAR &&
              row.price.Some? && row.price.value <= MAX_PRICE)
  {
    var masked := Select(df, ModelYearMask);
    var present := Select(masked, YearAndPricePresent);
    var v := AsIntModelYear(present);
    YearDropNaRemovesNothing(df);
    v
  }

  /** Rows with a present days_listed of at most MAX_DAYS_LISTED and a present condition, and
      all such rows. */
  function DaysListedView(df: seq<Listing>): (v: seq<Listing>)
    ensures forall i :: 0 <= i < |v| ==> v[i].daysListed.Some? && v[i].daysListed.value <= MAX_DAYS_LISTED && v[i].condition.Some?
    ensures ExactlyWhere(v, df, (row: Listing) => row.daysListed.Some? && row.daysListed.value <= MAX_DAYS_LISTED && row.condition.Some?)
  {
    Select(df, DaysListedMask)
  }

  /** The `dropna` after the model-year mask removes nothing: a missing year or price already
      failed the comparisons. So the cast meets no missing year. */
  lemma YearDropNaRemovesNothing(df: seq<Listing>)
    ensures Select(Select(df, ModelYearMask), YearAndPricePresent) == Select(df, ModelYearMask)
    ensures AsIntModelYear(Select(df, ModelYearMask)).Success?
  {
    SelectAll(Select(df, ModelYearMask), YearAndPricePresent);
  }

  /** After the condition step every row has a condition, so the `notna` tests of the
      price-by-condition and listing-duration masks remove nothing. */
  lemma ConditionNotNaIsRedundant(rows: seq<Listing>, selected: seq<string>)
    ensures var w := ConditionStep(rows, selected);
      && PriceByConditionView(w) == Select(w, (row: Listing) => AtMost(row.price, MAX_PRICE))
      && DaysListedView(w) == Select(w, (row: Listing) => AtMost(row.daysListed, MAX_DAYS_LISTED))
  {
    var w := ConditionStep(rows, selected);
    SelectAgree(w, PriceByConditionMask, (row: Listing) => AtMost(row.price, MAX_PRICE));
    SelectAgree(w, DaysListedMask, (row: Listing) => AtMost(row.daysListed, MAX_DAYS_LISTED));
  }

  // ---------------------------------------------------------------------------------------
  // Choosing "All" against choosing each type in turn
  // ---------------------------------------------------------------------------------------

  /** The rows the type step keeps for each listed type, one block after another. */
  ghost function PerTypeRows(rows: seq<Listing>, types: seq<string>): seq<Listing> {
    if types == [] then [] else TypeStep(rows, types[0]) + PerTypeRows(rows, types[1..])
  }

  lemma {:induction false} PerTypeRowsCount(rows: seq<Listing>, types: seq<string>, x: Listing)
    requires NoRepeats(types) && ALL_TYPES !in types
    ensures multiset(PerTypeRows(rows, types))[x] ==
              if x.vehicleType.Some? && x.vehicleType.value in types then multiset(rows)[x] else 0
  {
    if types != [] {
      assert NoRepeats(types[1..]);
      PerTypeRowsCount(rows, types[1..], x);
      assert types[0] !in types[1..];
      assert x.vehicleType.Some? && x.vehicleType.value in types <==>
               x.vehicleType == Some(types[0]) || (x.vehicleType.Some? && x.vehicleType.value in types[1..]);
    }
  }

  /** Choosing "All" shows, row for row, what choosing each offered type in turn shows together,
      plus the rows whose type is missing; when every type is present the two agree. */
  lemma AllIsUnionOfTypes(rows: seq<Listing>)
    requires !HasType(rows, ALL_TYPES)
    ensures multiset(PerTypeRows(rows, TypeOptions(rows)[1..])) ==
              multiset(Select(rows, (row: Listing) => row.vehicleType.Some?))
    ensures (forall i :: 0 <= i < |rows| ==> rows[i].vehicleType.Some?) ==>
              multiset(PerTypeRows(rows, TypeOptions(rows)[1..])) == multiset(TypeStep(rows, ALL_TYPES))
  {
    var types := TypeOptions(rows)[1..];
    var typed := Select(rows, (row: Listing) => row.vehicleType.Some?);
    StrictlyIncreasingHasNoRepeats(types);
    forall x: Listing
      ensures multiset(PerTypeRows(rows, types))[x] == multiset(typed)[x]
    {
      PerTypeRowsCount(rows, types, x);
      if x.vehicleType.Some? && multiset(rows)[x] > 0 {
        assert x in rows;
        var i :| 0 <= i < |rows| && rows[i] == x;
        assert HasType(rows, x.vehicleType.value);
      }
    }
    if forall i :: 0 <= i < |rows| ==> rows[i].vehicleType.Some? {
      SelectAll(rows, (row: Listing) => row.vehicleType.Some?);
    }
  }

  // ---------------------------------------------------------------------------------------
  // One run of the script
  // ---------------------------------------------------------------------------------------

  /** The type test of the working subset: the sentinel passes every row. */
  predicate OfType(row: Listing, choice: string) {
    choice == ALL_TYPES || row.vehicleType == Some(choice)
  }

  /** The working subset is exactly the rows of the chosen type whose condition is present and
      selected, in table order. */
  lemma WorkingSubsetRows(dataset: seq<Listing>, choice: string, selected: seq<string>)
    ensures ExactlyWhere(ConditionStep(TypeStep(dataset, choice), selected), dataset, (row: Listing) =>
              OfType(row, choice) && row.condition.Some? && row.condition.value in selected)
  {
    var typed := TypeStep(dataset, choice);
    if choice == ALL_TYPES {
      ExactlyWhereEverything(dataset, (row: Listing) => OfType(row, choice));
    }
    assert ExactlyWhere(typed, dataset, (row: Listing) => OfType(row, choice));
    ExactlyWhereCompose(ConditionStep(typed, selected), typed, dataset,
      (row: Listing) => row.condition.Some? && row.condition.value in selected, (row: Listing) => OfType(row, choice));
  }

  /** With the default condition selection the working subset is exactly the rows of the chosen
      type that have a condition. */
  lemma DefaultWorkingSubsetRows(dataset: seq<Listing>, choice: string)
    ensures var typed := TypeStep(dataset, choice);
      ExactlyWhere(ConditionStep(typed, ConditionOptions(typed)), dataset, (row: Listing) =>
        OfType(row, choice) && row.condition.Some?)
  {
    var typed := TypeStep(dataset, choice);
    if choice == ALL_TYPES {
      ExactlyWhereEverything(dataset, (row: Listing) => OfType(row, choice));
    }
    assert ExactlyWhere(typed, dataset, (row: Listing) => OfType(row, choice));
    DefaultSelectionDropsOnlyMissing(typed);
    ExactlyWhereCompose(ConditionStep(typed, ConditionOptions(typed)), typed, dataset,
      (row: Listing) => row.condition.Some?, (row: Listing) => OfType(row, choice));
  }

  /** What the condition selector hands back: its default, every offered condition, or the
      conditions the user picked. */
  datatype Selection = Offered | Picked(conditions: seq<string>)

  /** Everything the script hands to the page: the selectors' options, the selection in force,
      the working subset and the four bounded views. */
  datatype Charts = Charts(
    typeOptions: seq<string>,
    conditionOptions: seq<string>,
    selected: seq<string>,
    working: seq<Listing>,
    priceByCondition: seq<Listing>,
    heatmap: seq<Listing>,
    modelYear: seq<YearListing>,
    daysListed: seq<Listing>)

  /** One pass of the script over the loaded table, for the type chosen and the conditions
      selected; `df` is narrowed by rebinding, as the script does. */
  method Run(dataset: seq<Listing>, choice: string, selection: Selection) returns (d: Charts)
    ensures d.typeOptions == TypeOptions(dataset)
    ensures d.conditionOptions == ConditionOptions(TypeStep(dataset, choice))
    ensures d.selected == if selection.Offered? then d.conditionOptions else selection.conditions
    ensures ExactlyWhere(d.working, dataset, (row: Listing) =>
              OfType(row, choice) && row.condition.Some? && row.condition.value in d.selected)
    ensures selection.Offered? ==>
              ExactlyWhere(d.working, dataset, (row: Listing) => OfType(row, choice) && row.condition.Some?)
    ensures d.priceByCondition == PriceByConditionView(d.working)
    ensures d.heatmap == HeatmapView(d.working)
    ensures ModelYearView(d.working) == Success(d.modelYear)
    ensures d.daysListed == DaysListedView(d.working)
    ensures && IsSubsequence(d.priceByCondition, dataset)
            && IsSubsequence(d.heatmap, dataset)
            && IsSubsequence(WidenAll(d.modelYear), dataset)
            && IsSubsequence(d.daysListed, dataset)
    ensures selection == Picked([]) ==>
              d.working == [] && d.priceByCondition == [] && d.heatmap == [] && d.modelYear == [] && d.daysListed == []
  {
    var df := dataset;
    var typeOptions := TypeOptions(df);
    df := TypeStep(df, choice);
    var conditionOptions := ConditionOptions(df);
    var selected := if selection.Offered? then conditionOptions else selection.conditions;
    df := ConditionStep(df, selected);
    var year := ModelYearView(df);
    d := Charts(typeOptions, conditionOptions, selected, df,
                PriceByConditionView(df), HeatmapView(df), year.value, DaysListedView(df));

    WorkingSubsetRows(dataset, choice, selected);
    if selection.Offered? {
      DefaultWorkingSubsetRows(dataset, choice);
    }
    SubsequenceTransitive(d.priceByCondition, df, dataset);
    SubsequenceTransitive(d.heatmap, df, dataset);
    SubsequenceTransitive(WidenAll(d.modelYear), df, dataset);
    SubsequenceTransitive(d.daysListed, df, dataset);
  }

  /** The example of two listings: a sedan within every bound and a truck priced above them. */
  lemma SedanExample(sedan: Listing, truck: Listing)
    requires sedan == Listing(Some(20000), Some(30000), Some(2015), Some("excellent"), Some("sedan"), Some(10))
    requires truck == Listing(Some(120000), Some(10000), Some(2021), Some("good"), Some("truck"), Some(5))
    ensures TypeStep([sedan, truck], "sedan") == [sedan]
    ensures ConditionStep([sedan], ConditionOptions([sedan])) == [sedan]
    ensures PriceByConditionView([sedan]) == [sedan]
    ensures ModelYearView([sedan]) == Success([CastRow(sedan)]) && CastRow(sedan).modelYear == 2015
  {
    var isSedan := (row: Listing) => Equals(row.vehicleType, "sedan");
    assert [sedan, truck][1..] == [truck] && [truck][1..] == [];
    assert Select([truck], isSedan) == [];
    assert Select([sedan, truck], isSedan) == [sedan] + Select([truck], isSedan);
    assert ConditionStep([sedan], ConditionOptions([sedan])) == [sedan] by {
      DefaultSelectionDropsOnlyMissing([sedan]);
    }
    assert PriceByConditionView([sedan]) == [sedan] by { SelectAll([sedan], PriceByConditionMask); }
    assert Select([sedan], ModelYearMask) == [sedan] by { SelectAll([sedan], ModelYearMask); }
    YearDropNaRemovesNothing([sedan]);
    assert AsIntModelYear([sedan]).value == [CastRow(sedan)];
  }
}
