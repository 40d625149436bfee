/** The rows of the life-expectancy dataset, one per country and year, as the
    CSV loader yields them (numeric columns already parsed). */
module Rows {

  /** One CSV row. `time` is the year as the text of its CSV cell. */
  datatype Row = Row(
    location: string,
    time: string,
    fertilityRate: real,
    lifeExpectancy: real,
    popMlns: real)

  /** The `time` column, in row order: the value of each row at that row's index. */
  function Times(rows: seq<Row>): (times: seq<string>)
    ensures |times| == |rows|
    ensures forall i :: 0 <= i < |rows| ==> times[i] == rows[i].time
  {
    if |rows| == 0 then [] else [rows[0].time] + Times(rows[1..])
  }

  /** The `fertility_rate` column, in row order (the x values of
      the plot): the value of each row at that row's index. */
  function FertilityRates(rows: seq<Row>): (x: seq<real>)
    ensures |x| == |rows|
    ensures forall i :: 0 <= i < |rows| ==> x[i] == rows[i].fertilityRate
  {
    if |rows| == 0 then [] else [rows[0].fertilityRate] + FertilityRates(rows[1..])
  }

  /** The `life_expectancy` column, in row order (the y values of
      the plot): the value of each row at that row's index. */
  function LifeExpectancies(rows: seq<Row>): (y: seq<real>)
    ensures |y| == |rows|
    ensures forall i :: 0 <= i < |rows| ==> y[i] == rows[i].lifeExpectancy
  {
    if |rows| == 0 then [] else [rows[0].lifeExpectancy] + LifeExpectancies(rows[1..])
  }
}
