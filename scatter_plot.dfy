/** The page's data state: the master list of all rows (`allYearsData`) and the
    rows currently plotted (`data`), with the operations of the page that read
    or replace them. Drawing is not modelled; each operation returns what it
    would draw from (the limits, the drop-down entries, the title). */
module ScatterPlot {
  import opened Wrappers
  import opened Rows
  import opened PlotLimits
  import opened YearFilter
  import opened YearList

  class Page {
    /** The rows currently plotted. */
    var data: seq<Row>
    /** Every row of the CSV file, in file order. */
    var allYearsData: seq<Row>

    /** The plotted rows are always some of the master rows, in their order. */
    ghost predicate Valid()
      reads this
    {
      IsSubsequence(data, allYearsData)
    }

    /** The CSV has loaded: both the view and the master list are all its rows. */
    constructor Load(csvData: seq<Row>)
      ensures Valid()
      ensures data == csvData && allYearsData == csvData
    {
      data := csvData;
      allYearsData := csvData;
      SubsequenceReflexive(csvData);
    }

    /** `makeAxesAndLabels`: the axis limits from the rows currently in `data`
        (all rows, as it runs straight after loading) and the years of the
        drop-down from the master list. */
    method MakeAxesAndLabels() returns (limits: Option<Limits>, years: seq<string>)
      ensures limits == FindMinMax(FertilityRates(data), LifeExpectancies(data))
      ensures limits.Some? <==> |data| > 0
      ensures limits.Some? ==> forall r :: r in data ==>
        limits.value.xMin + XPad <= r.fertilityRate <= limits.value.xMax
        && limits.value.yMin + YPad <= r.lifeExpectancy <= limits.value.yMax
      ensures years == YearOptions(allYearsData)
    {
      var x, y := FertilityRates(data), LifeExpectancies(data);
      limits := FindMinMax(x, y);
      forall r | r in data
        ensures r.fertilityRate in x && r.lifeExpectancy in y
      {
        var i :| 0 <= i < |data| && data[i] == r;
        assert x[i] == r.fertilityRate && y[i] == r.lifeExpectancy;
      }
      years := YearOptions(allYearsData);
    }

    /** `filterByYear`: the view becomes the master rows of the given year; the
        master list is untouched. */
    method FilterByYear(year: string)
      modifies this
      ensures Valid()
      ensures allYearsData == old(allYearsData)
      ensures data == RowsOfYear(allYearsData, year)
    {
      data := RowsOfYear(allYearsData, year);
      RowsOfYearKeepsOrder(allYearsData, year);
    }

    /** `makeScatterPlot`: filter to the year and give the title to draw. */
    method MakeScatterPlot(year: string) returns (title: string)
      modifies this
      ensures Valid()
      ensures allYearsData == old(allYearsData)
      ensures data == RowsOfYear(allYearsData, year)
      ensures title == Title(year)
    {
      FilterByYear(year);
      title := Title(year);
    }
  }

  /** The page's start-up and one selection: load, draw the axes, plot 1960,
      then plot a selected year. The master list never changes, the drop-down
      lists each year once, and the title always names the year asked for,
      even one with no rows. The limits are computed once, from all rows, and
      never recomputed; every point plotted for the selected year lies inside
      them, because the plotted rows stay some of the master rows. */
  method Session(csvData: seq<Row>, selected: string)
    returns (limits: Option<Limits>, years: seq<string>, firstTitle: string, title: string, view: seq<Row>)
    ensures limits == FindMinMax(FertilityRates(csvData), LifeExpectancies(csvData))
    ensures years == YearOptions(csvData)
    ensures NoDuplicates(years)
    ensures forall y :: y in years <==> exists i :: 0 <= i < |csvData| && csvData[i].time == y
    ensures firstTitle == Title("1960") && title == Title(selected)
    ensures view == RowsOfYear(csvData, selected)
    ensures (forall r :: r in csvData ==> r.time != selected) ==> view == []
    ensures limits.Some? ==> forall r :: r in view ==>
      limits.value.xMin + XPad <= r.fertilityRate <= limits.value.xMax
      && limits.value.yMin + YPad <= r.lifeExpectancy <= limits.value.yMax
  {
    var page := new Page.Load(csvData);
    limits, years := page.MakeAxesAndLabels();
    firstTitle := page.MakeScatterPlot("1960");
    title := page.MakeScatterPlot(selected);
    view := page.data;
    RowsOfYearEmpty(csvData, selected);
    forall r | r in view
      ensures r in csvData
    {
      SubsequenceMembers(view, page.allYearsData, r);
    }
  }
}
