/**
 The chart page's data handling (modules/visualization.py): normalising the
 column labels and cells before charting, the list of indicator columns
 offered for plotting, and the volume table with its 30-day average.
 */
module Visualization {
  import opened Values
  import opened Frames
  import opened Stats
  import Indicators

  // ---------------------------------------------------------------------
  // Column labels

  /** The ticker tag that the price feed appends to column labels. */
  const Suffix := "_SBIN.NS"

  predicate EndsWith(s: string, t: string) {
    |t| <= |s| && s[|s| - |t|..] == t
  }

  /**
   re.sub(r'_SBIN\.NS$', '', name): the tag is removed where it ends the
   label, and also where only a final newline follows it, since `$` matches
   there too. At most one tag is removed.
   */
  function StripSuffix(name: string): (r: string)
    ensures |r| <= |name|
    ensures EndsWith(name, Suffix) ==> r + Suffix == name
    ensures !EndsWith(name, Suffix) && EndsWith(name, Suffix + "\n") ==>
      |r| > 0 && r[|r| - 1] == '\n' && r[..|r| - 1] + Suffix + "\n" == name
    ensures !EndsWith(name, Suffix) && !EndsWith(name, Suffix + "\n") ==> r == name
  {
    if EndsWith(name, Suffix) then name[..|name| - |Suffix|]
    else if EndsWith(name, Suffix + "\n") then name[..|name| - |Suffix| - 1] + "\n"
    else name
  }

  /** Tagging a label and stripping it again gives the label back. */
  lemma StripSuffixRoundTrip(base: string)
    ensures StripSuffix(base + Suffix) == base
  {
    var s := base + Suffix;
    assert s[|s| - |Suffix|..] == Suffix;
    assert s[..|s| - |Suffix|] == base;
  }

  /** A label is left alone exactly when no tag ends it, before or after a final newline. */
  lemma StripSuffixUnchanged(name: string)
    ensures StripSuffix(name) == name <==> !EndsWith(name, Suffix) && !EndsWith(name, Suffix + "\n")
  {
    if EndsWith(name, Suffix) || EndsWith(name, Suffix + "\n") {
      assert |StripSuffix(name)| < |name|;
    }
  }

  /** data.columns.str.replace(...): every label stripped, cells and order untouched. */
  function Renamed(f: Frame): (g: Frame)
    requires WellFormed(f)
    ensures g.index == f.index && |g.columns| == |f.columns|
    ensures forall j :: 0 <= j < |f.columns| ==>
      g.columns[j] == Column(StripSuffix(f.columns[j].name), f.columns[j].cells)
    ensures Distinct(Names(g)) ==> WellFormed(g)
  {
    Frame(f.index, seq(|f.columns|, j requires 0 <= j < |f.columns| =>
                         Column(StripSuffix(f.columns[j].name), f.columns[j].cells)))
  }

  // ---------------------------------------------------------------------
  // Validation

  /** The price columns a chart needs. */
  const PriceColumns: set<string> := {"Open", "High", "Low", "Close"}

  /** The columns coerced to numbers, in the order the code lists them. */
  const NumericColumns: seq<string> := ["Open", "High", "Low", "Close", "Volume"]

  /** Why normalisation gives no table: missing price columns, or a KeyError raised on Volume. */
  datatype NormalizeError = MissingColumns(missing: set<string>) | Raised(error: KeyError)

  /** Coerce the listed columns in place; every other column stays as it is. */
  function CoerceColumns(f: Frame, names: seq<string>, parse: string -> Option<real>): (g: Frame)
    requires WellFormed(f)
    ensures WellFormed(g) && g.index == f.index && Names(g) == Names(f)
    ensures forall j :: 0 <= j < |f.columns| ==>
      g.columns[j] == if f.columns[j].name in names then Column(f.columns[j].name, Coerce(f.columns[j].cells, parse))
                      else f.columns[j]
  {
    var g := Frame(f.index, seq(|f.columns|, j requires 0 <= j < |f.columns| =>
                     if f.columns[j].name in names then Column(f.columns[j].name, Coerce(f.columns[j].cells, parse))
                     else f.columns[j]));
    assert Names(g) == Names(f);
    g
  }

  /** A column after coercion: converted when it is listed, as it was otherwise. */
  lemma LookupCoerceColumns(f: Frame, names: seq<string>, parse: string -> Option<real>, n: string)
    requires WellFormed(f) && Has(f, n)
    ensures Has(CoerceColumns(f, names, parse), n)
    ensures Lookup(CoerceColumns(f, names, parse), n) ==
      if n in names then Coerce(Lookup(f, n), parse) else Lookup(f, n)
  {
    var j := Find(f, n);
    LookupUnique(f, j);
    LookupUnique(CoerceColumns(f, names, parse), j);
  }

  /** The price columns a table lacks. */
  function MissingPrices(g: Frame): (m: set<string>)
    ensures forall n :: n in m <==> n in PriceColumns && !Has(g, n)
    ensures m == {} <==> Has(g, "Open") && Has(g, "High") && Has(g, "Low") && Has(g, "Close")
  {
    var m := set n | n in PriceColumns && !Has(g, n);
    assert !Has(g, "Open") ==> "Open" in m;
    assert !Has(g, "High") ==> "High" in m;
    assert !Has(g, "Low") ==> "Low" in m;
    assert !Has(g, "Close") ==> "Close" in m;
    m
  }

  predicate HasAllNumeric(g: Frame) {
    Has(g, "Open") && Has(g, "High") && Has(g, "Low") && Has(g, "Close") && Has(g, "Volume")
  }

  lemma NumericColumnsFacts()
    ensures NumericColumns[3] == "Close" && "Close" in NumericColumns
  {
  }

  /** Each of the five coerced columns is one a table with all of them has. */
  lemma HasNumeric(g: Frame, n: string)
    requires HasAllNumeric(g) && n in NumericColumns
    ensures Has(g, n)
  {
    assert n == "Open" || n == "High" || n == "Low" || n == "Close" || n == "Volume";
  }

  /** data[numeric_cols] = data[numeric_cols].apply(pd.to_numeric, errors='coerce') */
  function Coerced(g: Frame, parse: string -> Option<real>): (h: Frame)
    requires WellFormed(g) && HasAllNumeric(g)
    ensures WellFormed(h) && h.index == g.index && Names(h) == Names(g)
    ensures forall n :: Has(g, n) ==>
      Has(h, n) && Lookup(h, n) == if n in NumericColumns then Coerce(Lookup(g, n), parse) else Lookup(g, n)
  {
    var h := CoerceColumns(g, NumericColumns, parse);
    forall n | Has(g, n)
      ensures Has(h, n) && Lookup(h, n) == if n in NumericColumns then Coerce(Lookup(g, n), parse) else Lookup(g, n)
    {
      LookupCoerceColumns(g, NumericColumns, parse, n);
    }
    h
  }

  /** The coerced closes, the column whose nulls decide which rows stay. */
  function CoercedCloses(g: Frame, parse: string -> Option<real>): (closes: seq<Value>)
    requires WellFormed(g) && HasAllNumeric(g)
    ensures |closes| == Rows(g) && NumericCells(closes)
    ensures Has(Coerced(g, parse), "Close") && closes == Lookup(Coerced(g, parse), "Close")
    ensures closes == Coerce(Lookup(g, "Close"), parse)
  {
    NumericColumnsFacts();
    Lookup(Coerced(g, parse), "Close")
  }

  /** The accepted table: the five OHLCV columns coerced, then the rows with a null close dropped. */
  function Normalized(g: Frame, parse: string -> Option<real>): (out: Frame)
    requires WellFormed(g) && HasAllNumeric(g)
    ensures WellFormed(out) && Names(out) == Names(g)
    ensures Has(out, "Close") && AllNum(Lookup(out, "Close"))
  {
    var h := Coerced(g, parse);
    var closes := CoercedCloses(g, parse);
    var out := KeepRows(h, NotNullMask(closes));
    LookupKeepRows(h, NotNullMask(closes), "Close");
    TakeNotNull(closes);
    out
  }

  /**
   validate_and_normalize_data: strip the ticker tag from the labels; refuse
   a table missing any of Open, High, Low or Close (naming the missing ones);
   coerce the five OHLCV columns to numbers, which raises KeyError when
   Volume is absent; then drop the rows whose close is null.
   */
  function ValidateAndNormalize(f: Frame, parse: string -> Option<real>): (r: Result<Frame, NormalizeError>)
    requires WellFormed(f) && Distinct(Names(Renamed(f)))
    ensures r.Err? && r.error.MissingColumns? <==> exists n :: n in PriceColumns && !Has(Renamed(f), n)
    ensures r.Err? && r.error.MissingColumns? ==>
      forall n :: n in r.error.missing <==> n in PriceColumns && !Has(Renamed(f), n)
    ensures r.Err? && r.error.Raised? <==>
      (forall n :: n in PriceColumns ==> Has(Renamed(f), n)) && !Has(Renamed(f), "Volume")
    ensures r.Err? && r.error.Raised? ==> r.error.error == KeyError("Volume")
    ensures r.Ok? ==> HasAllNumeric(Renamed(f)) && r.value == Normalized(Renamed(f), parse)
    ensures r.Ok? ==> WellFormed(r.value) && Names(r.value) == Names(Renamed(f))
    ensures r.Ok? ==> Has(r.value, "Close") && AllNum(Lookup(r.value, "Close"))
  {
    var g := Renamed(f);
    var missing := MissingPrices(g);
    if missing != {} then
      assert exists n :: n in PriceColumns && !Has(g, n) by {
        var n :| n in missing;
      }
      Err(MissingColumns(missing))
    else if !Has(g, "Volume") then Err(Raised(KeyError("Volume")))
    else Ok(Normalized(g, parse))
  }

  /**
   The accepted table keeps, in order, exactly the rows whose close
   converts to a number; in them the OHLCV cells are coerced (a number is
   unchanged, anything unparsable becomes NaN) and every other cell is as
   it was.
   */
  lemma NormalizedRows(g: Frame, parse: string -> Option<real>, n: string)
    requires WellFormed(g) && HasAllNumeric(g) && Has(g, n)
    ensures var out := Normalized(g, parse);
      var mask := NumericMask(Lookup(g, "Close"), parse);
      && out.index == Filter(g.index, mask)
      && Has(out, n)
      && Lookup(out, n) == Filter(if n in NumericColumns then Coerce(Lookup(g, n), parse) else Lookup(g, n), mask)
  {
    var h := Coerced(g, parse);
    var mask := NotNullMask(CoercedCloses(g, parse));
    CoercedMasks(Lookup(g, "Close"), parse);
    TakeIsFilter(g.index, mask);
    LookupKeepRows(h, mask, n);
    TakeIsFilter(Lookup(h, n), mask);
  }

  /** The same, for the labels as they arrive: the ticker tag is stripped first. */
  lemma ValidateRows(f: Frame, parse: string -> Option<real>, n: string)
    requires WellFormed(f) && Distinct(Names(Renamed(f)))
    requires ValidateAndNormalize(f, parse).Ok? && Has(Renamed(f), n)
    ensures var g := Renamed(f);
      var out := ValidateAndNormalize(f, parse).value;
      var mask := NumericMask(Lookup(g, "Close"), parse);
      && out.index == Filter(f.index, mask)
      && Has(out, n)
      && Lookup(out, n) == Filter(if n in NumericColumns then Coerce(Lookup(g, n), parse) else Lookup(g, n), mask)
  {
    NormalizedRows(Renamed(f), parse, n);
  }

  /** After normalisation each OHLCV column holds only numbers and NaN. */
  lemma NormalizedNumeric(g: Frame, parse: string -> Option<real>, n: string)
    requires WellFormed(g) && HasAllNumeric(g) && n in NumericColumns
    ensures Has(Normalized(g, parse), n)
    ensures NumericCells(Lookup(Normalized(g, parse), n))
  {
    var h := Coerced(g, parse);
    var mask := NotNullMask(CoercedCloses(g, parse));
    HasNumeric(g, n);
    LookupKeepRows(h, mask, n);
    TakeNumeric(Lookup(h, n), Positions(mask));
  }

  // ---------------------------------------------------------------------
  // Indicator options

  /** The mask of candidate labels present as columns. */
  function PresentMask(f: Frame, names: seq<string>): (mask: seq<bool>)
    ensures |mask| == |names|
    ensures forall k :: 0 <= k < |names| ==> (mask[k] <==> Has(f, names[k]))
  {
    seq(|names|, k requires 0 <= k < |names| => Has(f, names[k]))
  }

  /** The indicators offered in the multiselect: those of MA20, MA50, RSI, MACD, Signal present, in that order. */
  function IndicatorOptions(f: Frame): (opts: seq<string>)
    ensures opts == Filter(Indicators.IndicatorNames, PresentMask(f, Indicators.IndicatorNames))
    ensures forall n :: n in opts <==> n in Indicators.IndicatorNames && Has(f, n)
  {
    var names := Indicators.IndicatorNames;
    forall n {
      FilterMember(names, PresentMask(f, names), n);
    }
    Filter(names, PresentMask(f, names))
  }

  /** An element is in the filter exactly when it sits at a masked position. */
  lemma {:induction false} FilterMember<T>(s: seq<T>, mask: seq<bool>, x: T)
    requires |mask| == |s|
    ensures x in Filter(s, mask) <==> exists k :: 0 <= k < |s| && s[k] == x && mask[k]
    decreases |s|
  {
    if |s| > 0 {
      var n := |s| - 1;
      var rest := Filter(s[..n], mask[..n]);
      FilterMember(s[..n], mask[..n], x);
      assert Filter(s, mask) == if mask[n] then rest + [s[n]] else rest;
      if x in Filter(s, mask) {
        if x in rest {
          var k :| 0 <= k < |s[..n]| && s[..n][k] == x && mask[..n][k];
          assert s[k] == x && mask[k];
        } else {
          assert s[n] == x && mask[n];
        }
      }
      if exists k :: 0 <= k < |s| && s[k] == x && mask[k] {
        var k :| 0 <= k < |s| && s[k] == x && mask[k];
        if k < n {
          assert s[..n][k] == x && mask[..n][k];
        }
      }
    }
  }

  /**
   After the indicator step, an indicator is offered exactly when the table
   was long enough for it (or already carried it): MA20 from 10 rows, MA50
   from 25, RSI from 14, MACD and Signal from 26.
   */
  lemma OptionsAfterIndicators(f: Frame, name: string)
    requires WellFormed(f) && Indicators.PriceNumeric(f) && (Has(f, "Close") || Has(f, "Adj Close"))
    requires name in Indicators.IndicatorNames
    ensures name in IndicatorOptions(Indicators.CalculateTechnicalIndicators(f).frame)
      <==> Rows(f) >= Indicators.Threshold(name) || Has(f, name)
  {
    Indicators.IndicatorPresence(f, name);
  }

  /** Every indicator label is shorter than the ticker tag and does not end in a newline. */
  lemma IndicatorNameShape(name: string)
    requires name in Indicators.IndicatorNames
    ensures 0 < |name| < |Suffix| && name[|name| - 1] != '\n'
  {
    assert name == "MA20" || name == "MA50" || name == "RSI" || name == "MACD" || name == "Signal";
  }

  /** Stripping the tag yields an indicator label exactly from that label, bare or tagged. */
  lemma StripToIndicator(x: string, name: string)
    requires name in Indicators.IndicatorNames
    ensures StripSuffix(x) == name <==> x == name || x == name + Suffix
  {
    IndicatorNameShape(name);
    assert !EndsWith(name, Suffix) && !EndsWith(name, Suffix + "\n");
    assert (name + Suffix)[|name|..] == Suffix;
    if EndsWith(x, Suffix) {
      assert x == x[..|x| - |Suffix|] + Suffix;
    } else if EndsWith(x, Suffix + "\n") {
      var r := StripSuffix(x);
      assert r[|r| - 1] == '\n';
      assert r != name;
    }
  }

  /** After renaming, an indicator label is present exactly when it was, bare or tagged. */
  lemma RenamedHasIndicator(f: Frame, name: string)
    requires WellFormed(f) && name in Indicators.IndicatorNames
    ensures Has(Renamed(f), name) <==> Has(f, name) || Has(f, name + Suffix)
  {
    if Has(Renamed(f), name) {
      RenamedFrom(f, name);
    }
    if Has(f, name) {
      RenamedTo(f, name, name);
    }
    if Has(f, name + Suffix) {
      RenamedTo(f, name + Suffix, name);
    }
  }

  lemma RenamedFrom(f: Frame, name: string)
    requires WellFormed(f) && name in Indicators.IndicatorNames && Has(Renamed(f), name)
    ensures Has(f, name) || Has(f, name + Suffix)
  {
    var ns := Names(Renamed(f));
    var j :| 0 <= j < |ns| && ns[j] == name;
    var x := f.columns[j].name;
    assert StripSuffix(x) == name;
    StripToIndicator(x, name);
    assert Names(f)[j] == x;
  }

  lemma RenamedTo(f: Frame, x: string, name: string)
    requires WellFormed(f) && name in Indicators.IndicatorNames && Has(f, x) && (x == name || x == name + Suffix)
    ensures Has(Renamed(f), name)
  {
    StripToIndicator(x, name);
    var j :| 0 <= j < |Names(f)| && Names(f)[j] == x;
    assert Renamed(f).columns[j].name == name;
    assert Names(Renamed(f))[j] == name;
  }

  /** A label that is neither an indicator nor Close is in the indicator step's table iff it was in its input. */
  lemma OtherLabelKept(f: Frame, x: string)
    requires WellFormed(f) && Indicators.PriceNumeric(f) && (Has(f, "Close") || Has(f, "Adj Close"))
    requires x !in Indicators.IndicatorNames && x != "Close"
    ensures Has(Indicators.CalculateTechnicalIndicators(f).frame, x) <==> Has(f, x)
  {
    var out := Indicators.CalculateTechnicalIndicators(f).frame;
    if Has(f, x) {
      Indicators.ExistingColumnsKept(f, x);
    }
    if Has(out, x) {
      Indicators.AddedColumns(f);
      var k :| 0 <= k < |Names(out)| && Names(out)[k] == x;
      assert x !in Indicators.IndicatorNames + ["Close"];
      assert k < |Names(f)|;
      assert Names(f)[k] == Names(out)[..|Names(f)|][k];
    }
  }

  /**
   What the chart page offers: the indicator step's table, once validated,
   offers an indicator exactly when the step added it (the table was long
   enough), the input already had it, or the input had it under the ticker
   tag, which validation strips.
   */
  lemma OptionsOnPage(f: Frame, parse: string -> Option<real>, name: string)
    requires WellFormed(f) && Indicators.PriceNumeric(f) && (Has(f, "Close") || Has(f, "Adj Close"))
    requires name in Indicators.IndicatorNames
    requires Distinct(Names(Renamed(Indicators.CalculateTechnicalIndicators(f).frame)))
    ensures var page := ValidateAndNormalize(Indicators.CalculateTechnicalIndicators(f).frame, parse);
      page.Ok? ==>
        (name in IndicatorOptions(page.value)
         <==> Rows(f) >= Indicators.Threshold(name) || Has(f, name) || Has(f, name + Suffix))
  {
    var out := Indicators.CalculateTechnicalIndicators(f).frame;
    Indicators.IndicatorPresence(f, name);
    RenamedHasIndicator(out, name);
    IndicatorNameShape(name);
    assert name + Suffix != "Close";
    assert name + Suffix !in Indicators.IndicatorNames by {
      forall n | n in Indicators.IndicatorNames ensures n != name + Suffix {
        IndicatorNameShape(n);
      }
    }
    OtherLabelKept(f, name + Suffix);
  }

  /** The validated table always has a Volume column of numbers and NaN, as the volume table needs. */
  lemma ValidatedVolume(f: Frame, parse: string -> Option<real>)
    requires WellFormed(f) && Distinct(Names(Renamed(f))) && ValidateAndNormalize(f, parse).Ok?
    ensures var out := ValidateAndNormalize(f, parse).value;
      Has(out, "Volume") && NumericCells(Lookup(out, "Volume"))
  {
    assert "Volume" in NumericColumns;
    NormalizedNumeric(Renamed(f), parse, "Volume");
  }

  // ---------------------------------------------------------------------
  // Volume

  const AverageLabel := "30D Avg"

  /** The 30-day average volume: the mean of the numeric volumes among the last 30 rows, fewer at the start. */
  function VolumeAverage(volume: seq<Value>): (avg: seq<Value>)
    ensures |avg| == |volume|
    ensures forall i :: 0 <= i < |volume| ==> avg[i] == Mean(volume[WindowStart(i, 30)..i + 1])
  {
    RollingMean(volume, 30)
  }

  /**
   display_volume_analysis's table: the volume and its 30-day average side by
   side, rows with a null in either dropped; nothing when there is no Volume
   column.
   */
  function VolumeTable(f: Frame): (r: Option<Frame>)
    requires WellFormed(f) && (Has(f, "Volume") ==> NumericCells(Lookup(f, "Volume")))
    ensures r.Some? <==> Has(f, "Volume")
    ensures r.Some? ==> WellFormed(r.value) && Names(r.value) == ["Volume", AverageLabel]
  {
    if !Has(f, "Volume") then None
    else
      var t := SideBySide(f.index, Lookup(f, "Volume"));
      Some(KeepRows(t, NoNullMask(t)))
  }

  /** The volume and its 30-day average as the two columns of one table. */
  function SideBySide(index: seq<int>, volume: seq<Value>): (t: Frame)
    requires |index| == |volume|
    ensures WellFormed(t) && Names(t) == ["Volume", AverageLabel]
    ensures Lookup(t, "Volume") == volume && Lookup(t, AverageLabel) == VolumeAverage(volume)
  {
    var t := Frame(index, [Column("Volume", volume), Column(AverageLabel, VolumeAverage(volume))]);
    LookupUnique(t, 0);
    LookupUnique(t, 1);
    t
  }

  /** A window holding a number has a numeric mean. */
  lemma AverageDefined(volume: seq<Value>, i: nat)
    requires i < |volume| && volume[i].Num?
    ensures VolumeAverage(volume)[i].Num?
  {
    var w := volume[WindowStart(i, 30)..i + 1];
    assert w[|w| - 1] == volume[i];
    NumCountPositive(w);
  }

  /**
   The average never removes a row: on a coerced volume column the table
   keeps exactly the rows with a numeric volume, in order.
   */
  lemma VolumeRows(f: Frame)
    requires WellFormed(f) && Has(f, "Volume") && NumericCells(Lookup(f, "Volume"))
    ensures var volume := Lookup(f, "Volume");
      var out := VolumeTable(f).value;
      && out.index == Filter(f.index, NotNullMask(volume))
      && Lookup(out, "Volume") == Filter(volume, NotNullMask(volume))
      && Lookup(out, AverageLabel) == Filter(VolumeAverage(volume), NotNullMask(volume))
  {
    var volume := Lookup(f, "Volume");
    var t := SideBySide(f.index, volume);
    var mask := NoNullMask(t);
    SideBySideMask(f.index, volume);
    TakeIsFilter(f.index, mask);
    LookupKeepRows(t, mask, "Volume");
    TakeIsFilter(volume, mask);
    LookupKeepRows(t, mask, AverageLabel);
    TakeIsFilter(VolumeAverage(volume), mask);
  }

  /** The average is null only where the volume is, so the pair's null rows are the volume's. */
  lemma SideBySideMask(index: seq<int>, volume: seq<Value>)
    requires |index| == |volume| && NumericCells(volume)
    ensures NoNullMask(SideBySide(index, volume)) == NotNullMask(volume)
  {
    var t := SideBySide(index, volume);
    var avg := VolumeAverage(volume);
    forall i | 0 <= i < |volume|
      ensures NoNullMask(t)[i] == NotNullMask(volume)[i]
    {
      assert t.columns[0].cells[i] == volume[i] && t.columns[1].cells[i] == avg[i];
      if volume[i].Num? {
        AverageDefined(volume, i);
      }
    }
  }

  /** Each 30-day average lies within the volumes of its window. */
  lemma AverageBounds(volume: seq<Value>, i: nat, lo: real, hi: real)
    requires i < |volume|
    requires forall j :: WindowStart(i, 30) <= j <= i && volume[j].Num? ==> lo <= volume[j].x <= hi
    ensures VolumeAverage(volume)[i].Num? ==> lo <= VolumeAverage(volume)[i].x <= hi
  {
    var s := WindowStart(i, 30);
    var w := volume[s..i + 1];
    assert forall k :: 0 <= k < |w| ==> w[k] == volume[s + k];
    MeanBounds(w, lo, hi);
  }
}
