/** The entity dropdown: when a grouping column is chosen, its distinct values
    become the options, sorted in place, and the first one the default. */
module Options {
  import opened Cells
  import opened Tables

  predicate NoDuplicates(s: seq<Cell>) {
    forall i, j :: 0 <= i < j < |s| ==> s[i] != s[j]
  }

  predicate AdjacentSorted(s: seq<Cell>) {
    forall k :: 0 < k < |s| ==> CellLeq(s[k - 1], s[k])
  }

  predicate StrictlyAscending(s: seq<Cell>) {
    forall i, j :: 0 <= i < j < |s| ==> CellLess(s[i], s[j])
  }

  /** `df[col].dropna().unique()`: the distinct present values, in order of
      first appearance. */
  function Unique(rows: seq<Record>, col: string): (vs: seq<Cell>)
    ensures NoDuplicates(vs)
    ensures forall v :: v in vs <==> v != Missing && exists r :: r in rows && Lookup(r, col) == v
    decreases |rows|
  {
    if |rows| == 0 then []
    else
      var init := rows[..|rows| - 1];
      var last := rows[|rows| - 1];
      var u := Unique(init, col);
      assert forall r :: r in rows <==> r in init || r == last by {
        assert rows == init + [last];
      }
      var v := Lookup(last, col);
      if v == Missing || v in u then u else u + [v]
  }

  /** The first `n` elements of `s` are in ascending order. */
  predicate SortedPrefix(s: seq<Cell>, n: int) {
    forall k :: 0 < k < n && k < |s| ==> CellLeq(s[k - 1], s[k])
  }

  /** While `s[j]` sinks through `s[..i + 1]`: every adjacent pair up to `i`
      is ordered except the one ending at `j`, and the neighbours of `j` are
      ordered with each other. */
  predicate Sinking(s: seq<Cell>, i: int, j: int) {
    && 0 <= j <= i < |s|
    && (forall k :: 0 < k <= i && k != j ==> CellLeq(s[k - 1], s[k]))
    && (0 < j < i ==> CellLeq(s[j - 1], s[j + 1]))
  }

  /** Swapping an out-of-order `s[j]` with its left neighbour moves the gap
      one place left and keeps the same values. */
  lemma SwapDown(s: seq<Cell>, i: int, j: int)
    requires Sinking(s, i, j) && 0 < j
    requires CellLess(s[j], s[j - 1])
    ensures Sinking(s[j - 1 := s[j]][j := s[j - 1]], i, j - 1)
    ensures multiset(s[j - 1 := s[j]][j := s[j - 1]]) == multiset(s)
  {
    var t := s[j - 1 := s[j]][j := s[j - 1]];
    forall k | 0 < k <= i && k != j - 1 ensures CellLeq(t[k - 1], t[k]) {
      if k == j + 1 {
        assert t[k - 1] == s[j - 1] && t[k] == s[j + 1];
      } else if k != j {
        assert t[k - 1] == s[k - 1] && t[k] == s[k];
      }
    }
    if 0 < j - 1 {
      assert t[j - 2] == s[j - 2] && t[j] == s[j - 1];
    }
  }

  /** One insertion step: `a[i]` sinks by swaps into the sorted prefix
      `a[..i]`, after which `a[..i + 1]` is sorted. */
  method InsertAt(a: array<Cell>, i: int)
    requires 0 < i < a.Length
    requires SortedPrefix(a[..], i)
    modifies a
    ensures SortedPrefix(a[..], i + 1)
    ensures multiset(a[..]) == multiset(old(a[..]))
  {
    var j := i;
    while j > 0 && CellLess(a[j], a[j - 1])
      invariant Sinking(a[..], i, j)
      invariant multiset(a[..]) == multiset(old(a[..]))
    {
      ghost var s := a[..];
      SwapDown(s, i, j);
      a[j - 1], a[j] := a[j], a[j - 1];
      assert a[..] == s[j - 1 := s[j]][j := s[j - 1]];
      j := j - 1;
    }
    if j > 0 {
      CellLessTotal(a[j], a[j - 1]);
    }
  }

  /** `list.sort()` on the option list, here an insertion sort by swaps: the
      array ends up in ascending order and holds the same values. */
  method SortInPlace(a: array<Cell>)
    modifies a
    ensures AdjacentSorted(a[..])
    ensures multiset(a[..]) == multiset(old(a[..]))
  {
    var i := 1;
    while i < a.Length
      invariant a.Length == 0 || 1 <= i <= a.Length
      invariant SortedPrefix(a[..], i)
      invariant multiset(a[..]) == multiset(old(a[..]))
    {
      InsertAt(a, i);
      i := i + 1;
    }
  }

  lemma {:induction false} NoDuplicatesCounts(s: seq<Cell>)
    requires NoDuplicates(s)
    ensures forall x :: multiset(s)[x] <= 1
    decreases |s|
  {
    if |s| > 0 {
      var init := s[..|s| - 1];
      assert s == init + [s[|s| - 1]];
      assert NoDuplicates(init);
      NoDuplicatesCounts(init);
      assert s[|s| - 1] !in init;
    }
  }

  /** A sequence whose values occur at most once each has no duplicates. */
  lemma CountsNoDuplicates(s: seq<Cell>)
    requires forall x :: multiset(s)[x] <= 1
    ensures NoDuplicates(s)
  {
    forall i, j | 0 <= i < j < |s| ensures s[i] != s[j] {
      var before := s[..j];
      assert s == before + [s[j]] + s[j + 1..];
      assert s[i] in before;
      assert multiset(s)[s[j]] >= multiset(before)[s[j]] + 1;
    }
  }

  /** Adjacent ascending order without repeated values is a strict order on
      every pair, by transitivity of the cell order. */
  lemma {:induction false} StrictFromAdjacent(s: seq<Cell>)
    requires AdjacentSorted(s) && NoDuplicates(s)
    ensures StrictlyAscending(s)
  {
    forall i, j | 0 <= i < j < |s| ensures CellLess(s[i], s[j]) {
      var k := i + 1;
      while k < j
        invariant i < k <= j
        invariant CellLess(s[i], s[k])
      {
        CellLessTransitive(s[i], s[k], s[k + 1]);
        k := k + 1;
      }
    }
  }

  /** The dropdown label of a grouping column, "Selection" for any other. */
  function GroupLabel(group: string): string {
    if group == "Continent" then "Continent"
    else if group == "Country" then "Country"
    else if group == "Income_Group" then "Income Group"
    else if group == "SDG_Region" then "SDG Region"
    else "Selection"
  }

  /** The group guard shared by both callbacks: `not group or group not in columns`. */
  predicate GroupInvalid(frame: Frame, group: Option<string>) {
    group.None? || group.value == "" || group.value !in frame.columns
  }

  /** `update_entity_options(selected_group)`: ("Selection", [], None) for a
      missing or unknown column; otherwise the column's label, its distinct
      present values in strictly ascending order, and the first (least) of
      them as the default, or None when the column has no values. */
  method EntityOptions(frame: Frame, selectedGroup: Option<string>)
    returns (caption: string, options: seq<Cell>, initial: Option<Cell>)
    ensures GroupInvalid(frame, selectedGroup) ==> caption == "Selection" && options == [] && initial == None
    ensures !GroupInvalid(frame, selectedGroup) ==>
              var g := selectedGroup.value;
              && caption == GroupLabel(g)
              && StrictlyAscending(options)
              && (forall v :: v in options <==> v != Missing && exists r :: r in frame.rows && Lookup(r, g) == v)
              && (initial.None? <==> options == [])
              && (initial.Some? ==> initial.value == options[0] && forall v :: v in options ==> CellLeq(initial.value, v))
  {
    if GroupInvalid(frame, selectedGroup) {
      return "Selection", [], None;
    }
    var g := selectedGroup.value;
    var distinct := Unique(frame.rows, g);
    var a := new Cell[|distinct|](i requires 0 <= i < |distinct| => distinct[i]);
    assert a[..] == distinct;
    SortInPlace(a);
    options := a[..];
    NoDuplicatesCounts(distinct);
    CountsNoDuplicates(options);
    StrictFromAdjacent(options);
    forall v ensures v in options <==> v in distinct {
      assert v in options <==> v in multiset(options);
      assert v in distinct <==> v in multiset(distinct);
    }
    caption := GroupLabel(g);
    initial := if |options| == 0 then None else Some(options[0]);
  }
}
