/**
 The entry point of the dashboard (main.py): the check that the fetched
 table is worth showing, and the routing from the sidebar's page label to
 the page that renders it.
 */
module App {
  import opened Values
  import opened Frames
  import opened Stats
  import Forecasting

  // ---------------------------------------------------------------------
  // Input check

  /** The fewest closing prices the dashboard accepts. */
  const MinimumDays: nat := 5

  /** How many cells are not null: the length of the column after dropna(). */
  function CountPresent(cells: seq<Value>): (c: nat)
    ensures c <= |cells|
    decreases |cells|
  {
    if |cells| == 0 then 0
    else CountPresent(cells[..|cells| - 1]) + (if IsNull(cells[|cells| - 1]) then 0 else 1)
  }

  /** dropna keeps exactly CountPresent cells. */
  lemma {:induction false} PresentPositions(cells: seq<Value>)
    ensures |Positions(NotNullMask(cells))| == CountPresent(cells)
    decreases |cells|
  {
    if |cells| > 0 {
      var n := |cells| - 1;
      PresentPositions(cells[..n]);
      assert NotNullMask(cells)[..n] == NotNullMask(cells[..n]);
    }
  }

  /**
   data_valid: an empty table is refused; otherwise the Close column is
   subscripted (KeyError when there is none) and the table is accepted when
   at least five closes are not null.
   */
  function DataValid(f: Frame): (r: Result<bool, KeyError>)
    requires WellFormed(f)
    ensures r.Err? <==> !Empty(f) && !Has(f, "Close")
    ensures r.Err? ==> r.error == KeyError("Close")
    ensures r == Ok(true) <==> !Empty(f) && Has(f, "Close") && CountPresent(Lookup(f, "Close")) >= MinimumDays
  {
    if Empty(f) then Ok(false)
    else if !Has(f, "Close") then Err(KeyError("Close"))
    else
      var closes := Lookup(f, "Close");
      var kept := Take(closes, Positions(NotNullMask(closes)));
      PresentPositions(closes);
      Ok(|kept| >= MinimumDays)
  }

  /** On a column of numbers and NaN the cells that are not null are the numbers. */
  lemma {:induction false} PresentNumeric(cells: seq<Value>)
    requires NumericCells(cells)
    ensures CountPresent(cells) == NumCount(cells)
    decreases |cells|
  {
    if |cells| > 0 {
      var n := |cells| - 1;
      assert IsNumberType(cells[n]);
      PresentNumeric(cells[..n]);
    }
  }

  /**
   A table the entry point accepts, whose closes are numbers and NaN,
   always has the history the forecasting page asks for: the two guards
   agree on such tables.
   */
  lemma ValidFeedsForecast(f: Frame, parse: string -> Option<real>, horizon: int)
    requires WellFormed(f) && 1 <= horizon <= 90
    requires Has(f, "Close") && NumericCells(Lookup(f, "Close"))
    ensures DataValid(f) == Ok(true) <==> Forecasting.ShowForecast(f, parse, horizon).Projected?
  {
    var closes := Lookup(f, "Close");
    Forecasting.CleanClosesCount(closes, parse);
    assert Coerce(closes, parse) == closes;
    PresentNumeric(closes);
  }

  // ---------------------------------------------------------------------
  // Routing

  /** The pages of the sidebar's radio. */
  datatype Page = AnalysisPage | ChartPage | ForecastPage

  /** The label the radio shows for each page. */
  function Label(p: Page): string {
    match p
    case AnalysisPage => "📊 Real-time Analysis"
    case ChartPage => "📈 Visualization"
    case ForecastPage => "🔮 Forecasting"
  }

  /** display_page: the page whose label was picked; no page for any other label. */
  function Route(choice: string): (r: Option<Page>)
    ensures r.Some? ==> Label(r.value) == choice
    ensures r.None? ==> forall p: Page :: Label(p) != choice
  {
    if choice == Label(AnalysisPage) then Some(AnalysisPage)
    else if choice == Label(ChartPage) then Some(ChartPage)
    else if choice == Label(ForecastPage) then Some(ForecastPage)
    else None
  }

  /** Each page is reached from its own label. */
  lemma RouteLabel(p: Page)
    ensures Route(Label(p)) == Some(p)
  {
    LabelsDiffer();
  }

  lemma LabelsDiffer()
    ensures Label(AnalysisPage)[0] == '📊' && Label(ChartPage)[0] == '📈' && Label(ForecastPage)[0] == '🔮'
  {
  }

  /** What the main page shows: the error notice, or the header with the routed page (none for an unknown label). */
  datatype Screen = DataError | Header(page: Option<Page>)

  /**
   main after the data is fetched: routed to the picked page when the data
   is valid, the error notice otherwise; the KeyError of a table without
   Close propagates.
   */
  function Show(f: Frame, choice: string): (r: Result<Screen, KeyError>)
    requires WellFormed(f)
    ensures r.Err? <==> DataValid(f).Err?
    ensures r.Ok? ==> (r.value.DataError? <==> DataValid(f) == Ok(false))
    ensures r.Ok? && r.value.Header? ==> forall p: Page :: r.value.page == Some(p) <==> Label(p) == choice
  {
    var valid := DataValid(f);
    if valid.Err? then Err(valid.error)
    else if valid.value then
      var page := Route(choice);
      assert forall p: Page :: page == Some(p) <==> Label(p) == choice by {
        forall p: Page
          ensures page == Some(p) <==> Label(p) == choice
        {
          if Label(p) == choice {
            RouteLabel(p);
          }
        }
      }
      Ok(Header(page))
    else Ok(DataError)
  }
}
