/** The sustainability table: the raw table as read (renamed in place at load
    time), the canonical table that every callback works on, and the row filters
    used on it. */
module Tables {
  import opened Cells

  const YEAR := "Year"
  const CONTINENT := "Continent"

  /** Raw column name -> canonical column name, applied at load time. */
  const COLUMN_MAPPING: map<string, string> := map[
    "Country Name" := "Country",
    "Access to electricity (% of population) - EG.ELC.ACCS.ZS" := "Elec_Access",
    "GDP (current US$) - NY.GDP.MKTP.CD" := "GDP",
    "Annual production-based emissions of carbon dioxide (CO2), measured in million tonnes" := "CO2_Emissions",
    "Life expectancy at birth, total (years) - SP.DYN.LE00.IN" := "Life_Exp",
    "Proportion of seats held by women in national parliaments (%) - SG.GEN.PARL.ZS" := "Women_Parliament",
    "Adjusted savings: carbon dioxide damage (% of GNI) - NY.ADJ.DCO2.GN.ZS" := "CO2_Damage_GNI",
    "Adjusted savings: natural resources depletion (% of GNI) - NY.ADJ.DRES.GN.ZS" := "Nat_Res_Depletion",
    "Inflation, consumer prices (annual %) - FP.CPI.TOTL.ZG" := "Inflation",
    "Regime Type (RoW Measure Definition)" := "Regime_Type",
    "Income Classification (World Bank Definition)" := "Income_Group",
    "World Regions (UN SDG Definition)" := "SDG_Region"
  ]

  /** One row of the canonical table: its parsed year and its other cells. */
  datatype Record = Record(year: int, cells: map<string, Cell>)

  /** The canonical table: its column names and its rows, in file order. */
  datatype Frame = Frame(columns: set<string>, rows: seq<Record>)

  /** The value of column `col` in row `r`; the Year column holds timestamps. */
  function Lookup(r: Record, col: string): Cell {
    if col == YEAR then Stamp(r.year)
    else if col in r.cells then r.cells[col] else Missing
  }

  /** How many of `rows` hold `v` in column `col`. */
  function Occurrences(rows: seq<Record>, col: string, v: Cell): nat {
    if |rows| == 0 then 0
    else (if Lookup(rows[0], col) == v then 1 else 0) + Occurrences(rows[1..], col, v)
  }

  function Get(row: map<string, Cell>, col: string): Cell {
    if col in row then row[col] else Missing
  }

  /** `r` is `s` with some elements removed, the rest in their original order. */
  predicate Subsequence<T(==)>(r: seq<T>, s: seq<T>)
    decreases |s|
  {
    if |r| == 0 then true
    else if |s| == 0 then false
    else if r[0] == s[0] then Subsequence(r[1..], s[1..])
    else Subsequence(r, s[1..])
  }

  /** Boolean-mask selection `s[p(s)]`: the elements satisfying `p`, in order. */
  function Keep<T>(s: seq<T>, p: T -> bool): (r: seq<T>)
    ensures |r| <= |s|
    ensures forall x :: x in r ==> x in s && p(x)
    ensures forall i :: 0 <= i < |s| && p(s[i]) ==> s[i] in r
    decreases |s|
  {
    if |s| == 0 then []
    else (if p(s[0]) then [s[0]] else []) + Keep(s[1..], p)
  }

  /** The selection keeps every element satisfying `p` as often as it occurs. */
  lemma {:induction false} KeepCounts<T(!new)>(s: seq<T>, p: T -> bool)
    ensures forall x :: multiset(Keep(s, p))[x] == if p(x) then multiset(s)[x] else 0
    decreases |s|
  {
    if |s| > 0 {
      KeepCounts(s[1..], p);
      assert s == [s[0]] + s[1..];
    }
  }

  lemma {:induction false} KeepIsSubsequence<T(!new)>(s: seq<T>, p: T -> bool)
    ensures Subsequence(Keep(s, p), s)
    decreases |s|
  {
    if |s| > 0 {
      KeepIsSubsequence(s[1..], p);
      var r := Keep(s, p);
      if p(s[0]) {
        assert r[0] == s[0] && r[1..] == Keep(s[1..], p);
      } else {
        assert r == Keep(s[1..], p);
        if |r| > 0 && r[0] == s[0] {
          assert false;
        }
      }
    }
  }

  /** The selection filter `df[df[group] == entity]`. A missing cell never equals
      the entity, as NaN compares unequal to everything. */
  function Filter(rows: seq<Record>, group: string, entity: Cell): (kept: seq<Record>)
    requires entity != Missing
  {
    Keep(rows, (r: Record) => Lookup(r, group) == entity)
  }

  /** Every kept row matches the entity, every matching row is kept as often
      as it occurs, and the kept rows are in their original order. */
  lemma FilterSpec(rows: seq<Record>, group: string, entity: Cell)
    requires entity != Missing
    ensures forall r :: r in Filter(rows, group, entity) ==> r in rows && Lookup(r, group) == entity
    ensures forall i :: 0 <= i < |rows| && Lookup(rows[i], group) == entity ==> rows[i] in Filter(rows, group, entity)
    ensures forall r :: multiset(Filter(rows, group, entity))[r] ==
                        if Lookup(r, group) == entity then multiset(rows)[r] else 0
    ensures Subsequence(Filter(rows, group, entity), rows)
  {
    KeepIsSubsequence(rows, (r: Record) => Lookup(r, group) == entity);
    KeepCounts(rows, (r: Record) => Lookup(r, group) == entity);
  }

  /** `filtered[filtered['Year'] == y]`: the rows of one year. */
  function YearSlice(rows: seq<Record>, y: int): (slice: seq<Record>)
    ensures forall r :: r in slice ==> r in rows && r.year == y
    ensures forall i :: 0 <= i < |rows| && rows[i].year == y ==> rows[i] in slice
  {
    Keep(rows, (r: Record) => r.year == y)
  }

  /** The slice of one year holds each of that year's rows as often as `rows`
      does, in the original order. */
  lemma YearSliceCounts(rows: seq<Record>, y: int)
    ensures forall r :: multiset(YearSlice(rows, y))[r] == if r.year == y then multiset(rows)[r] else 0
    ensures Subsequence(YearSlice(rows, y), rows)
  {
    KeepCounts(rows, (r: Record) => r.year == y);
    KeepIsSubsequence(rows, (r: Record) => r.year == y);
  }

  // ---------------------------------------------------------------------------
  // Load time: the raw table, renamed in place, then reduced to complete rows.
  // ---------------------------------------------------------------------------

  function NewName(mapping: map<string, string>, col: string): string {
    if col in mapping then mapping[col] else col
  }

  /** Renaming keeps distinct columns distinct (no duplicate column names arise). */
  ghost predicate RenameInjective(mapping: map<string, string>, cols: set<string>) {
    forall a, b :: a in cols && b in cols && NewName(mapping, a) == NewName(mapping, b) ==> a == b
  }

  function RenameRow(row: map<string, Cell>, mapping: map<string, string>): (r: map<string, Cell>)
    requires RenameInjective(mapping, row.Keys)
  {
    map k | k in row :: NewName(mapping, k) := row[k]
  }

  /** A renamed row holds each old value under the new name of its column, and
      holds nothing else. */
  lemma RenameRowSpec(row: map<string, Cell>, mapping: map<string, string>)
    requires RenameInjective(mapping, row.Keys)
    ensures forall k :: k in row ==> NewName(mapping, k) in RenameRow(row, mapping) && RenameRow(row, mapping)[NewName(mapping, k)] == row[k]
    ensures forall n :: n in RenameRow(row, mapping) ==> exists k :: k in row && NewName(mapping, k) == n
  {
  }

  /** The table as read from disk: a pandas frame whose columns are renamed in place. */
  class RawTable {
    var columns: seq<string>
    var rows: seq<map<string, Cell>>

    ghost predicate Valid()
      reads this
    {
      && (forall i, j :: 0 <= i < j < |columns| ==> columns[i] != columns[j])
      && (forall i :: 0 <= i < |rows| ==> rows[i].Keys == set c | c in columns)
    }

    constructor (columns: seq<string>, rows: seq<map<string, Cell>>)
      requires forall i, j :: 0 <= i < j < |columns| ==> columns[i] != columns[j]
      requires forall i :: 0 <= i < |rows| ==> rows[i].Keys == set c | c in columns
      ensures Valid()
      ensures this.columns == columns && this.rows == rows
    {
      this.columns := columns;
      this.rows := rows;
    }

    /** `df.rename(columns=mapping, inplace=True)`. */
    method Rename(mapping: map<string, string>)
      requires Valid()
      requires RenameInjective(mapping, set c | c in columns)
      modifies this
      ensures Valid()
      ensures columns == RenameColumns(old(columns), mapping)
      ensures |rows| == |old(rows)|
      ensures forall i :: 0 <= i < |rows| ==> rows[i] == RenameRow(old(rows)[i], mapping)
    {
      var oldCols, oldRows := columns, rows;
      RenameColumnsDistinct(oldCols, mapping);
      columns := RenameColumns(oldCols, mapping);
      rows := seq(|oldRows|, i requires 0 <= i < |oldRows| => RenameRow(oldRows[i], mapping));
      forall i | 0 <= i < |rows|
        ensures rows[i].Keys == set c | c in columns
      {
        RenamedRowKeys(oldRows[i], oldCols, mapping);
      }
    }
  }

  function RenameColumns(cols: seq<string>, mapping: map<string, string>): (r: seq<string>)
    ensures |r| == |cols|
  {
    seq(|cols|, i requires 0 <= i < |cols| => NewName(mapping, cols[i]))
  }

  /** Renaming with an injective mapping keeps column names distinct. */
  lemma RenameColumnsDistinct(cols: seq<string>, mapping: map<string, string>)
    requires forall i, j :: 0 <= i < j < |cols| ==> cols[i] != cols[j]
    requires RenameInjective(mapping, set c | c in cols)
    ensures forall i, j :: 0 <= i < j < |cols| ==> RenameColumns(cols, mapping)[i] != RenameColumns(cols, mapping)[j]
  {
    var r := RenameColumns(cols, mapping);
    forall i, j | 0 <= i < j < |cols| ensures r[i] != r[j] {
      assert cols[i] in (set c | c in cols) && cols[j] in (set c | c in cols);
    }
  }

  /** A renamed row has exactly the renamed columns. */
  lemma RenamedRowKeys(row: map<string, Cell>, cols: seq<string>, mapping: map<string, string>)
    requires row.Keys == set c | c in cols
    requires RenameInjective(mapping, row.Keys)
    ensures RenameRow(row, mapping).Keys == set c | c in RenameColumns(cols, mapping)
  {
    var r := RenameRow(row, mapping);
    var newCols := RenameColumns(cols, mapping);
    RenameRowSpec(row, mapping);
    forall n | n in r.Keys ensures n in newCols {
      var k :| k in row && NewName(mapping, k) == n;
      var j :| 0 <= j < |cols| && cols[j] == k;
      assert newCols[j] == n;
    }
    forall n | n in newCols ensures n in r.Keys {
      var j :| 0 <= j < |newCols| && newCols[j] == n;
      assert cols[j] in row;
    }
  }

  /** Rows that survive `dropna(subset=['Continent', 'Year'])`. */
  predicate Complete(row: map<string, Cell>) {
    Get(row, CONTINENT) != Missing && Get(row, YEAR) != Missing
  }

  /** The Year column is numeric wherever present, so it parses as a year. */
  predicate YearsNumeric(rows: seq<map<string, Cell>>) {
    forall i :: 0 <= i < |rows| ==> Get(rows[i], YEAR).Missing? || Get(rows[i], YEAR).Num?
  }

  /** A complete raw row as a canonical record; the Year cell becomes the year field. */
  function ToRecord(row: map<string, Cell>): Record
    requires Get(row, YEAR).Num?
  {
    Record(Get(row, YEAR).num.Floor, row - {YEAR})
  }

  /** The canonical table built at load time: the complete rows, in order, with
      their years parsed. The frame keeps every column of the raw table. */
  function Canonical(columns: seq<string>, rows: seq<map<string, Cell>>): (f: Frame)
    requires CONTINENT in columns && YEAR in columns
    requires YearsNumeric(rows)
  {
    var complete := Keep(rows, Complete);
    Frame(set c | c in columns,
          seq(|complete|, i requires 0 <= i < |complete| =>
            assert complete[i] in rows;
            ToRecord(complete[i])))
  }

  /** The canonical table keeps the raw columns, and record j is the j-th
      complete raw row with its year parsed: the complete rows keep their order
      and their repeats. */
  lemma CanonicalRows(columns: seq<string>, rows: seq<map<string, Cell>>)
    requires CONTINENT in columns && YEAR in columns
    requires YearsNumeric(rows)
    ensures Canonical(columns, rows).columns == set c | c in columns
    ensures var complete := Keep(rows, Complete);
            && Subsequence(complete, rows)
            && |Canonical(columns, rows).rows| == |complete|
            && forall j :: 0 <= j < |complete| ==>
                 Get(complete[j], YEAR).Num? && Canonical(columns, rows).rows[j] == ToRecord(complete[j])
  {
    KeepIsSubsequence(rows, Complete);
    var complete := Keep(rows, Complete);
    forall j | 0 <= j < |complete| ensures Get(complete[j], YEAR).Num? {
      assert complete[j] in complete;
    }
  }

  /** Only complete rows reach the canonical table: every record has a
      Continent and is some complete raw row with its year parsed. */
  lemma CanonicalSound(columns: seq<string>, rows: seq<map<string, Cell>>)
    requires CONTINENT in columns && YEAR in columns
    requires YearsNumeric(rows)
    ensures forall r :: r in Canonical(columns, rows).rows ==>
              Lookup(r, CONTINENT) != Missing &&
              exists i :: 0 <= i < |rows| && Complete(rows[i]) && Get(rows[i], YEAR).Num? && r == ToRecord(rows[i])
  {
    var f := Canonical(columns, rows);
    var complete := Keep(rows, Complete);
    forall r | r in f.rows
      ensures Lookup(r, CONTINENT) != Missing
      ensures exists i :: 0 <= i < |rows| && Complete(rows[i]) && Get(rows[i], YEAR).Num? && r == ToRecord(rows[i])
    {
      var j :| 0 <= j < |f.rows| && f.rows[j] == r;
      assert complete[j] in complete;
      var i :| 0 <= i < |rows| && rows[i] == complete[j];
    }
  }

  /** Every raw row with a Continent and a Year reaches the canonical table,
      with its year and its other cells unchanged. */
  lemma CanonicalComplete(columns: seq<string>, rows: seq<map<string, Cell>>)
    requires CONTINENT in columns && YEAR in columns
    requires YearsNumeric(rows)
    ensures forall i :: 0 <= i < |rows| && Complete(rows[i]) ==>
              exists r :: r in Canonical(columns, rows).rows && r.year == Get(rows[i], YEAR).num.Floor &&
                          (forall c :: c != YEAR ==> Lookup(r, c) == Get(rows[i], c))
  {
    var f := Canonical(columns, rows);
    var complete := Keep(rows, Complete);
    forall i | 0 <= i < |rows| && Complete(rows[i])
      ensures exists r :: r in f.rows && r.year == Get(rows[i], YEAR).num.Floor &&
                          (forall c :: c != YEAR ==> Lookup(r, c) == Get(rows[i], c))
    {
      var j :| 0 <= j < |complete| && complete[j] == rows[i];
      assert f.rows[j] == ToRecord(rows[i]);
    }
  }

  /** The load step: the raw table is renamed in place with the fixed column
      mapping, then reduced to its complete rows with their years parsed. */
  method Load(t: RawTable) returns (f: Frame)
    requires t.Valid()
    requires RenameInjective(COLUMN_MAPPING, set c | c in t.columns)
    requires CONTINENT in RenameColumns(t.columns, COLUMN_MAPPING)
    requires YEAR in RenameColumns(t.columns, COLUMN_MAPPING)
    requires forall i :: 0 <= i < |t.rows| ==>
               var y := Get(RenameRow(t.rows[i], COLUMN_MAPPING), YEAR); y.Missing? || y.Num?
    modifies t
    ensures t.Valid()
    ensures t.columns == RenameColumns(old(t.columns), COLUMN_MAPPING)
    ensures |t.rows| == |old(t.rows)|
    ensures forall i :: 0 <= i < |t.rows| ==> t.rows[i] == RenameRow(old(t.rows)[i], COLUMN_MAPPING)
    ensures f == Canonical(t.columns, t.rows)
  {
    t.Rename(COLUMN_MAPPING);
    f := Canonical(t.columns, t.rows);
  }
}
