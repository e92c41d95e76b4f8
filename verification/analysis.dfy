/**
 The null-safe helpers of the analysis page (modules/analysis.py): reading
 a cell of the latest row as a float with a fallback, the rupee and plain
 number formatters, the input check, and the day-over-day change with its
 up or down arrow.
 */
module Analysis {
  import opened Values
  import opened Frames
  import opened Format

  /**
   Python's float() on a cell that pd.notnull accepts, which is a number or
   a string: numbers stay, strings are parsed (None stands for the
   ValueError of a string that is not a number). Null cells are never
   passed: their float() would be NaN, which the callers never print.
   */
  function FloatOf(v: Value, parse: string -> Option<real>): (r: Option<real>)
    requires !IsNull(v)
    ensures v.Num? ==> r == Some(v.x)
    ensures v.Text? ==> r == parse(v.s)
  {
    if v.Num? then Some(v.x) else parse(v.s)
  }

  /**
   safe_get_value(series, key, default): the cell under key (the default
   itself when the key is absent) as a float; the default whenever that
   value is null or float() fails on it.
   */
  function SafeGetValue(row: map<string, Value>, key: string, default: Value, parse: string -> Option<real>)
    : (r: Value)
    ensures r.Num? || r == default
    ensures key in row && row[key].Num? ==> r == row[key]
    ensures key in row && IsNull(row[key]) ==> r == default
    ensures key in row && row[key].Text? && parse(row[key].s).None? ==> r == default
    ensures key in row && row[key].Text? && parse(row[key].s).Some? ==> r == Num(parse(row[key].s).value)
    ensures key !in row && (IsNull(default) || default.Num?) ==> r == default
  {
    var value := if key in row then row[key] else default;
    if IsNull(value) then default
    else
      var f := FloatOf(value, parse);
      if f.Some? then Num(f.value) else default
  }

  /** On a row of a numeric column the lookup is the cell itself, or the default where the cell is NaN. */
  lemma SafeGetValueNumeric(f: Frame, i: nat, key: string, default: Value, parse: string -> Option<real>)
    requires WellFormed(f) && i < Rows(f) && Has(f, key) && NumericCells(Lookup(f, key))
    ensures var r := SafeGetValue(RowAt(f, i), key, default, parse);
      && (Lookup(f, key)[i].Num? ==> r == Lookup(f, key)[i])
      && (!Lookup(f, key)[i].Num? ==> r == default)
  {
    assert IsNumberType(Lookup(f, key)[i]);
  }

  /** The string "N/A" that every helper falls back to. */
  const NotAvailable := "N/A"

  /** The rupee sign prefixed by format_currency. */
  const Rupee: char := '₹'

  /**
   format_currency: a float (NaN included) as rupees with thousands
   separators and two decimals; any other value as "N/A". It never fails.
   */
  function FormatCurrency(v: Value): (s: string)
    ensures s == NotAvailable <==> !IsNumberType(v)
    ensures IsNumberType(v) ==> |s| > 1 && s[0] == Rupee && s[1..] == FormatNumber(v, 2, true)
  {
    if IsNumberType(v) then [Rupee] + FormatNumber(v, 2, true) else NotAvailable
  }

  /**
   A rupee amount reads back: after the sign and an optional minus, the
   digits with their commas deleted spell the amount rounded to paise.
   */
  lemma FormatCurrencyReadsBack(x: real)
    ensures var s := FormatCurrency(Num(x));
      var q := Scaled(x, 2);
      && s[0] == Rupee
      && s[1..] == (if x < 0.0 then "-" else "") + WholePart(q, 2, true) + FracPart(q, 2)
      && AllDigits(Ungroup(WholePart(q, 2, true)))
      && ReadDigits(Ungroup(WholePart(q, 2, true)) + FracDigits(q, 2)) == q
  {
    FixedReadsBack(x, 2, true);
  }

  /** data_invalid: an empty table, or one without a Close column. */
  function DataInvalid(f: Frame): (invalid: bool)
    ensures invalid <==> Rows(f) == 0 || !Has(f, "Close")
  {
    Empty(f) || Rows(f) < 1 || !Has(f, "Close")
  }

  // ---------------------------------------------------------------------
  // Daily change

  /** The percentage change from prev to cur; 0 when prev is 0, so nothing is divided by zero. */
  function Change(prev: real, cur: real): real {
    if prev != 0.0 then (cur - prev) / prev * 100.0 else 0.0
  }

  /** The up arrow for a change of at least zero, the down arrow otherwise. */
  function Arrow(change: real): (c: char)
    ensures c == '▲' <==> change >= 0.0
    ensures c == '▼' <==> change < 0.0
  {
    if change >= 0.0 then '▲' else '▼'
  }

  /** The close of row i read as safe_get_value(data.iloc[i], 'Close', 0) does. */
  function CloseAt(f: Frame, i: nat, parse: string -> Option<real>): (x: real)
    requires WellFormed(f) && i < Rows(f)
  {
    var v := SafeGetValue(RowAt(f, i), "Close", Num(0.0), parse);
    v.x
  }

  /**
   calculate_daily_change: with at least two rows, the change from the
   second-to-last close to the last, two decimals, a percent sign and an
   arrow; "N/A" for fewer rows.
   */
  function DailyChange(f: Frame, parse: string -> Option<real>): (s: string)
    requires WellFormed(f)
    ensures s == NotAvailable <==> Rows(f) <= 1
    ensures Rows(f) > 1 ==>
      var c := Change(CloseAt(f, Rows(f) - 2, parse), CloseAt(f, Rows(f) - 1, parse));
      s == Fixed(c, 2, false) + "% " + [Arrow(c)]
  {
    if Rows(f) > 1 then
      var prev := CloseAt(f, Rows(f) - 2, parse);
      var cur := CloseAt(f, Rows(f) - 1, parse);
      var change := Change(prev, cur);
      Fixed(change, 2, false) + "% " + [Arrow(change)]
    else NotAvailable
  }

  /** Applying the change to the previous close gives back the current close. */
  lemma ChangeRoundTrip(prev: real, cur: real)
    requires prev != 0.0
    ensures prev + Change(prev, cur) / 100.0 * prev == cur
  {
    var d := cur - prev;
    assert Change(prev, cur) / 100.0 == d / prev;
    assert d / prev * prev == d;
  }

  /** From a positive previous close, the change has the sign of cur - prev. */
  lemma ChangeSign(prev: real, cur: real)
    requires prev > 0.0
    ensures Change(prev, cur) >= 0.0 <==> cur >= prev
    ensures Change(prev, cur) == 0.0 <==> cur == prev
  {
    var d := cur - prev;
    assert Change(prev, cur) == d / prev * 100.0;
    if d >= 0.0 {
      assert d / prev >= 0.0;
    } else {
      assert d / prev < 0.0;
    }
  }

  /** A missing or zero previous close reads as 0 and gives a change of 0.00% with the up arrow. */
  lemma DailyChangeZeroPrevious(f: Frame, parse: string -> Option<real>)
    requires WellFormed(f) && Rows(f) > 1
    requires CloseAt(f, Rows(f) - 2, parse) == 0.0
    ensures DailyChange(f, parse) == "0.00% ▲"
  {
    var c := Change(CloseAt(f, Rows(f) - 2, parse), CloseAt(f, Rows(f) - 1, parse));
    assert c == 0.0;
    FixedZero();
    ZeroChangeText(c, Fixed(c, 2, false));
  }

  lemma ZeroChangeText(c: real, fixed: string)
    requires c == 0.0 && fixed == "0.00"
    ensures fixed + "% " + [Arrow(c)] == "0.00% ▲"
  {
  }

  lemma FixedZero()
    ensures Fixed(0.0, 2, false) == "0.00"
  {
    FixedZeroAt(2);
    ZerosTwo(2);
  }

  lemma ZerosTwo(k: nat)
    requires k == 2
    ensures Zeros(k) == "00"
  {
    assert Zeros(0) == "";
    assert Zeros(1) == "0";
  }

  lemma ScaledZero(places: nat)
    ensures Scaled(0.0, places) == 0
  {
    assert Abs(0.0) * Pow10(places) as real == 0.0;
    RoundHalfEvenUnique(0.0, 0);
  }

  /** Zero with any positive number of decimals: "0." and that many zeros. */
  lemma FixedZeroAt(places: nat)
    requires places >= 1
    ensures Fixed(0.0, places, false) == "0." + Zeros(places)
  {
    ScaledZero(places);
    var whole := WholePart(0, places, false);
    var frac := FracDigits(0, places);
    FixedNonNegative(0.0, places, 0, whole, frac);
    WholeZero(places, whole);
    FracZero(places, frac);
    PointAfterZero(whole, frac, Zeros(places));
  }

  lemma PointAfterZero(whole: string, frac: string, zeros: string)
    requires whole == "0" && frac == zeros
    ensures whole + ("." + frac) == "0." + zeros
  {
  }

  /** For x >= 0 and places > 0 the text is the integer part, a point, and the fraction digits. */
  lemma FixedNonNegative(x: real, places: nat, q: nat, whole: string, frac: string)
    requires x >= 0.0 && places > 0 && q == Scaled(x, places)
    requires whole == WholePart(q, places, false) && frac == FracDigits(q, places)
    ensures Fixed(x, places, false) == whole + ("." + frac)
  {
  }

  /** The integer part of 0 is the single digit 0. */
  lemma WholeZero(places: nat, whole: string)
    requires whole == WholePart(0, places, false)
    ensures whole == "0"
  {
    assert Units(0, places) == 0;
    assert Digits(0) == [DigitChar(0)];
  }

  /** The fraction digits of 0 are all zeros. */
  lemma FracZero(places: nat, frac: string)
    requires places >= 1 && frac == FracDigits(0, places)
    ensures frac == Zeros(places)
  {
    assert ReadDigits(frac) == 0;
    ReadZeroIsZeros(frac);
  }

  /** With a positive previous close the arrow points up exactly when the close did not fall. */
  lemma DailyChangeArrow(f: Frame, parse: string -> Option<real>)
    requires WellFormed(f) && Rows(f) > 1
    requires CloseAt(f, Rows(f) - 2, parse) > 0.0
    ensures var s := DailyChange(f, parse);
      s[|s| - 1] == '▲' <==> CloseAt(f, Rows(f) - 1, parse) >= CloseAt(f, Rows(f) - 2, parse)
  {
    ChangeSign(CloseAt(f, Rows(f) - 2, parse), CloseAt(f, Rows(f) - 1, parse));
  }

  // ---------------------------------------------------------------------
  // The prompt's figures

  /**
   format_value inside build_analysis_prompt: a non-null value converted
   with float() and printed with the given decimals (and thousands
   separators when grouped); "N/A" for a null value or a failed conversion.
   */
  function FormatValue(v: Value, places: nat, grouped: bool, parse: string -> Option<real>): (s: string)
    ensures s == NotAvailable <==> IsNull(v) || FloatOf(v, parse).None?
    ensures !IsNull(v) && FloatOf(v, parse).Some? ==> s == Fixed(FloatOf(v, parse).value, places, grouped)
  {
    if IsNull(v) then NotAvailable
    else
      var x := FloatOf(v, parse);
      if x.Some? then FixedNotAvailable(x.value, places, grouped); Fixed(x.value, places, grouped)
      else NotAvailable
  }

  lemma FixedNotAvailable(x: real, places: nat, grouped: bool)
    ensures Fixed(x, places, grouped) != NotAvailable
  {
    var s := Fixed(x, places, grouped);
    assert s[0] == '-' || IsDigit(s[0]);
  }

  /** The seven figures quoted in the analysis prompt. */
  datatype Figures = Figures(current: string, ma20: string, rsi: string, macd: string,
                             low: string, high: string, volume: string)

  /** The labels the prompt subscripts, in the order the f-string evaluates them. */
  const SubscriptedKeys: seq<string> := ["Close", "Low", "High", "Volume"]

  /** SubscriptedKeys[k] is the first subscripted label missing from the row. */
  predicate FirstMissing(row: map<string, Value>, k: int) {
    0 <= k < |SubscriptedKeys| && SubscriptedKeys[k] !in row
    && forall j :: 0 <= j < k ==> SubscriptedKeys[j] in row
  }

  /**
   The figures of build_analysis_prompt from the latest row: Close, Low,
   High and Volume are subscripted and must be present; MA20, RSI and MACD
   are fetched with get and read as None when absent. Prices get two
   decimals, the volume none with thousands separators.
   */
  function AnalysisFigures(row: map<string, Value>, parse: string -> Option<real>): (r: Result<Figures, KeyError>)
    ensures r.Ok? <==> "Close" in row && "Low" in row && "High" in row && "Volume" in row
    ensures r.Err? ==> exists k :: FirstMissing(row, k) && r.error == KeyError(SubscriptedKeys[k])
    ensures r.Ok? ==> r.value.current == FormatValue(row["Close"], 2, false, parse)
    ensures r.Ok? ==> r.value.low == FormatValue(row["Low"], 2, false, parse)
    ensures r.Ok? ==> r.value.high == FormatValue(row["High"], 2, false, parse)
    ensures r.Ok? ==> r.value.volume == FormatValue(row["Volume"], 0, true, parse)
    ensures r.Ok? ==> r.value.ma20 == (if "MA20" in row then FormatValue(row["MA20"], 2, false, parse) else NotAvailable)
    ensures r.Ok? ==> r.value.rsi == (if "RSI" in row then FormatValue(row["RSI"], 2, false, parse) else NotAvailable)
    ensures r.Ok? ==> r.value.macd == (if "MACD" in row then FormatValue(row["MACD"], 2, false, parse) else NotAvailable)
  {
    if "Close" !in row then assert FirstMissing(row, 0); Err(KeyError("Close"))
    else if "Low" !in row then assert FirstMissing(row, 1); Err(KeyError("Low"))
    else if "High" !in row then assert FirstMissing(row, 2); Err(KeyError("High"))
    else if "Volume" !in row then assert FirstMissing(row, 3); Err(KeyError("Volume"))
    else
      var get := (name: string) => if name in row then row[name] else NoneValue;
      Ok(Figures(FormatValue(row["Close"], 2, false, parse),
                 FormatValue(get("MA20"), 2, false, parse),
                 FormatValue(get("RSI"), 2, false, parse),
                 FormatValue(get("MACD"), 2, false, parse),
                 FormatValue(row["Low"], 2, false, parse),
                 FormatValue(row["High"], 2, false, parse),
                 FormatValue(row["Volume"], 0, true, parse)))
  }
}
