/**
 A pandas DataFrame reduced to what the dashboard uses: a date index (day
 numbers), and named columns of cells in a fixed order. Column assignment
 and the row filters (dropna) are modelled here once and shared.
 */
module Frames {
  import opened Values

  datatype Column = Column(name: string, cells: seq<Value>)

  datatype Frame = Frame(index: seq<int>, columns: seq<Column>)

  function Rows(f: Frame): nat {
    |f.index|
  }

  function Names(f: Frame): (ns: seq<string>)
    ensures |ns| == |f.columns|
    ensures forall j :: 0 <= j < |f.columns| ==> ns[j] == f.columns[j].name
  {
    seq(|f.columns|, j requires 0 <= j < |f.columns| => f.columns[j].name)
  }

  predicate Distinct(ns: seq<string>) {
    forall j, k :: 0 <= j < k < |ns| ==> ns[j] != ns[k]
  }

  /** Every column has one cell per row, and no two columns share a label. */
  predicate WellFormed(f: Frame) {
    && (forall j :: 0 <= j < |f.columns| ==> |f.columns[j].cells| == |f.index|)
    && Distinct(Names(f))
  }

  /** DataFrame.empty: no rows or no columns. */
  predicate Empty(f: Frame) {
    |f.index| == 0 || |f.columns| == 0
  }

  /** Subscripting a label the table lacks raises KeyError naming it. */
  datatype KeyError = KeyError(name: string)

  predicate Has(f: Frame, name: string) {
    name in Names(f)
  }

  /** Position of the column with the given label. */
  function Find(f: Frame, name: string): (j: nat)
    requires Has(f, name)
    ensures j < |f.columns| && f.columns[j].name == name
    ensures forall k :: 0 <= k < j ==> f.columns[k].name != name
    decreases |f.columns|
  {
    if f.columns[0].name == name then 0
    else
      assert Has(Frame(f.index, f.columns[1..]), name) by {
        var k :| 0 <= k < |f.columns| && Names(f)[k] == name;
        assert Names(Frame(f.index, f.columns[1..]))[k - 1] == name;
      }
      1 + Find(Frame(f.index, f.columns[1..]), name)
  }

  /** data[name]: the cells of a column. */
  function Lookup(f: Frame, name: string): (cells: seq<Value>)
    requires WellFormed(f) && Has(f, name)
    ensures |cells| == Rows(f)
    ensures exists j :: 0 <= j < |f.columns| && f.columns[j] == Column(name, cells)
  {
    f.columns[Find(f, name)].cells
  }

  lemma LookupUnique(f: Frame, j: nat)
    requires WellFormed(f) && j < |f.columns|
    ensures Has(f, f.columns[j].name)
    ensures Lookup(f, f.columns[j].name) == f.columns[j].cells
  {
    assert Names(f)[j] == f.columns[j].name;
    var k := Find(f, f.columns[j].name);
    assert Names(f)[k] == f.columns[j].name;
  }

  lemma ReplaceColumn(f: Frame, name: string, cells: seq<Value>)
    requires WellFormed(f) && |cells| == Rows(f) && Has(f, name)
    ensures var g := Frame(f.index, f.columns[Find(f, name) := Column(name, cells)]);
      && WellFormed(g) && Names(g) == Names(f)
      && Has(g, name) && Lookup(g, name) == cells
      && forall n :: Has(f, n) && n != name ==> Lookup(g, n) == Lookup(f, n)
  {
    var j0 := Find(f, name);
    var g := Frame(f.index, f.columns[j0 := Column(name, cells)]);
    assert Names(g) == Names(f);
    LookupUnique(g, j0);
    forall n | Has(f, n) && n != name
      ensures Lookup(g, n) == Lookup(f, n)
    {
      var j :| 0 <= j < |f.columns| && Names(f)[j] == n;
      LookupUnique(f, j);
      LookupUnique(g, j);
    }
  }

  lemma AppendColumn(f: Frame, name: string, cells: seq<Value>)
    requires WellFormed(f) && |cells| == Rows(f) && !Has(f, name)
    ensures var g := Frame(f.index, f.columns + [Column(name, cells)]);
      && WellFormed(g) && Names(g) == Names(f) + [name]
      && Has(g, name) && Lookup(g, name) == cells
      && forall n :: Has(f, n) ==> Lookup(g, n) == Lookup(f, n)
  {
    var g := Frame(f.index, f.columns + [Column(name, cells)]);
    assert Names(g) == Names(f) + [name];
    LookupUnique(g, |f.columns|);
    forall n | Has(f, n)
      ensures Lookup(g, n) == Lookup(f, n)
    {
      var j :| 0 <= j < |f.columns| && Names(f)[j] == n;
      LookupUnique(f, j);
      LookupUnique(g, j);
    }
  }

  /**
   data[name] = cells: an existing column is overwritten where it stands, a
   new one is appended after the others.
   */
  function Assign(f: Frame, name: string, cells: seq<Value>): (g: Frame)
    requires WellFormed(f) && |cells| == Rows(f)
    ensures WellFormed(g) && g.index == f.index
    ensures Has(g, name) && Lookup(g, name) == cells
    ensures forall n :: Has(g, n) <==> Has(f, n) || n == name
    ensures forall n :: Has(f, n) && n != name ==> Lookup(g, n) == Lookup(f, n)
    ensures Has(f, name) ==> Names(g) == Names(f)
    ensures !Has(f, name) ==> Names(g) == Names(f) + [name]
  {
    if Has(f, name) then
      ReplaceColumn(f, name, cells);
      Frame(f.index, f.columns[Find(f, name) := Column(name, cells)])
    else
      AppendColumn(f, name, cells);
      Frame(f.index, f.columns + [Column(name, cells)])
  }

  /** The positions whose mask entry is true, in increasing order. */
  function Positions(mask: seq<bool>): (ps: seq<nat>)
    ensures forall k :: 0 <= k < |ps| ==> ps[k] < |mask| && mask[ps[k]]
    ensures forall k, l :: 0 <= k < l < |ps| ==> ps[k] < ps[l]
    ensures forall i :: 0 <= i < |mask| && mask[i] ==> i in ps
    decreases |mask|
  {
    if |mask| == 0 then []
    else
      var ps := Positions(mask[..|mask| - 1]);
      if mask[|mask| - 1] then ps + [|mask| - 1] else ps
  }

  /** The elements of s at the given positions, in the order given. */
  function Take<T>(s: seq<T>, ps: seq<nat>): (r: seq<T>)
    requires forall k :: 0 <= k < |ps| ==> ps[k] < |s|
    ensures |r| == |ps|
    ensures forall k :: 0 <= k < |ps| ==> r[k] == s[ps[k]]
  {
    seq(|ps|, k requires 0 <= k < |ps| => s[ps[k]])
  }

  /** Reference filter: the elements whose mask entry is true, in their original order. */
  function Filter<T>(s: seq<T>, mask: seq<bool>): (r: seq<T>)
    requires |mask| == |s|
    ensures |r| <= |s|
    decreases |s|
  {
    if |s| == 0 then []
    else
      var rest := Filter(s[..|s| - 1], mask[..|s| - 1]);
      if mask[|s| - 1] then rest + [s[|s| - 1]] else rest
  }

  /** Picking the masked positions is the reference filter. */
  lemma {:induction false} TakeIsFilter<T>(s: seq<T>, mask: seq<bool>)
    requires |mask| == |s|
    ensures Take(s, Positions(mask)) == Filter(s, mask)
    decreases |s|
  {
    if |s| > 0 {
      var n := |s| - 1;
      var ps := Positions(mask[..n]);
      var rest := Filter(s[..n], mask[..n]);
      TakeIsFilter(s[..n], mask[..n]);
      TakePrefix(s, n, ps);
      if mask[n] {
        assert Positions(mask) == ps + [n];
        assert Filter(s, mask) == rest + [s[n]];
        TakeSnoc(s, ps, n);
      } else {
        assert Positions(mask) == ps;
        assert Filter(s, mask) == rest;
      }
    }
  }

  /** Positions below n pick the same elements from s and from its first n elements. */
  lemma TakePrefix<T>(s: seq<T>, n: nat, ps: seq<nat>)
    requires n <= |s| && forall k :: 0 <= k < |ps| ==> ps[k] < n
    ensures Take(s, ps) == Take(s[..n], ps)
  {
    var a, b := Take(s, ps), Take(s[..n], ps);
    assert |a| == |b|;
    forall k | 0 <= k < |a| ensures a[k] == b[k] {
      assert a[k] == s[ps[k]] && b[k] == s[..n][ps[k]];
    }
  }

  /** Appending a position appends its element. */
  lemma TakeSnoc<T>(s: seq<T>, ps: seq<nat>, n: nat)
    requires n < |s| && forall k :: 0 <= k < |ps| ==> ps[k] < |s|
    ensures Take(s, ps + [n]) == Take(s, ps) + [s[n]]
  {
    var a, b := Take(s, ps + [n]), Take(s, ps) + [s[n]];
    assert |a| == |b|;
    forall k | 0 <= k < |a| ensures a[k] == b[k] {
      assert a[k] == s[(ps + [n])[k]];
    }
  }

  /** The rows whose mask entry is true, keeping every column and the row order. */
  function KeepRows(f: Frame, mask: seq<bool>): (g: Frame)
    requires WellFormed(f) && |mask| == Rows(f)
    ensures WellFormed(g) && Names(g) == Names(f)
    ensures g.index == Take(f.index, Positions(mask))
    ensures forall j :: 0 <= j < |f.columns| ==>
      g.columns[j] == Column(f.columns[j].name, Take(f.columns[j].cells, Positions(mask)))
  {
    var ps := Positions(mask);
    var g := Frame(Take(f.index, ps),
                   seq(|f.columns|, j requires 0 <= j < |f.columns| =>
                         Column(f.columns[j].name, Take(f.columns[j].cells, ps))));
    assert Names(g) == Names(f);
    g
  }

  lemma LookupKeepRows(f: Frame, mask: seq<bool>, name: string)
    requires WellFormed(f) && |mask| == Rows(f) && Has(f, name)
    ensures Has(KeepRows(f, mask), name)
    ensures Lookup(KeepRows(f, mask), name) == Take(Lookup(f, name), Positions(mask))
  {
    var j := Find(f, name);
    LookupUnique(f, j);
    LookupUnique(KeepRows(f, mask), j);
  }

  /** True when the row at position i holds a null in every column. */
  predicate AllNullRow(f: Frame, i: nat)
    requires WellFormed(f) && i < Rows(f)
  {
    forall j :: 0 <= j < |f.columns| ==> IsNull(f.columns[j].cells[i])
  }

  /** The mask of rows that dropna(how='all') keeps. */
  function NotAllNullMask(f: Frame): (mask: seq<bool>)
    requires WellFormed(f)
    ensures |mask| == Rows(f)
    ensures forall i :: 0 <= i < Rows(f) ==> (mask[i] <==> !AllNullRow(f, i))
  {
    seq(Rows(f), i requires 0 <= i < Rows(f) => !AllNullRow(f, i))
  }

  /** data.dropna(how='all'): drop exactly the rows that are null in every column. */
  function DropAllNullRows(f: Frame): (g: Frame)
    requires WellFormed(f)
    ensures WellFormed(g) && Names(g) == Names(f)
  {
    KeepRows(f, NotAllNullMask(f))
  }

  /** dropna(how='all') keeps exactly the rows holding at least one non-null cell. */
  lemma DropAllNullRowsKeeps(f: Frame, i: nat)
    requires WellFormed(f) && i < Rows(f)
    ensures i in Positions(NotAllNullMask(f)) <==> exists j :: 0 <= j < |f.columns| && !IsNull(f.columns[j].cells[i])
  {
  }

  /** The mask of rows that dropna() keeps: no column holds a null there. */
  function NoNullMask(f: Frame): (mask: seq<bool>)
    requires WellFormed(f)
    ensures |mask| == Rows(f)
    ensures forall i :: 0 <= i < Rows(f) ==>
      (mask[i] <==> forall j :: 0 <= j < |f.columns| ==> !IsNull(f.columns[j].cells[i]))
  {
    seq(Rows(f), i requires 0 <= i < Rows(f) =>
          forall j :: 0 <= j < |f.columns| ==> !IsNull(f.columns[j].cells[i]))
  }

  /** The mask of rows whose cell in the named column is not null. */
  function NotNullMask(cells: seq<Value>): (mask: seq<bool>)
    ensures |mask| == |cells|
    ensures forall i :: 0 <= i < |cells| ==> (mask[i] <==> !IsNull(cells[i]))
  {
    seq(|cells|, i requires 0 <= i < |cells| => !IsNull(cells[i]))
  }

  /** Which cells convert to a number. */
  function NumericMask(cells: seq<Value>, parse: string -> Option<real>): (mask: seq<bool>)
    ensures |mask| == |cells|
    ensures forall i :: 0 <= i < |cells| ==> (mask[i] <==> ToNumeric(cells[i], parse).Num?)
  {
    seq(|cells|, i requires 0 <= i < |cells| => ToNumeric(cells[i], parse).Num?)
  }

  /** After coercion a cell is non-null exactly when it is a number. */
  lemma CoercedMasks(cells: seq<Value>, parse: string -> Option<real>)
    ensures NotNullMask(Coerce(cells, parse)) == NumericMask(cells, parse)
  {
  }

  /** Dropping the null cells of a column of numbers and NaN leaves numbers only. */
  lemma TakeNotNull(cells: seq<Value>)
    requires NumericCells(cells)
    ensures AllNum(Take(cells, Positions(NotNullMask(cells))))
  {
  }

  /** Picking rows of a column of numbers and NaN gives numbers and NaN. */
  lemma TakeNumeric(cells: seq<Value>, ps: seq<nat>)
    requires NumericCells(cells) && forall k :: 0 <= k < |ps| ==> ps[k] < |cells|
    ensures NumericCells(Take(cells, ps))
  {
  }

  /** The row at position i as a Series: label to cell. */
  function RowAt(f: Frame, i: nat): (row: map<string, Value>)
    requires WellFormed(f) && i < Rows(f)
    ensures forall n :: n in row <==> Has(f, n)
    ensures forall n :: Has(f, n) ==> row[n] == Lookup(f, n)[i]
  {
    map n | n in Names(f) :: Lookup(f, n)[i]
  }
}
