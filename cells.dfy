/** Values held in the cells of the sustainability table, and the order in which
    Python's `sorted` / `list.sort` arranges them. */
module Cells {

  datatype Option<+T> = None | Some(value: T)

  /** One cell of a table column. `Missing` is pandas' NaN / Python's None,
      `Num` a numeric value, `Stamp(y)` the year-granularity timestamp that the
      `Year` column holds once parsed, `Text` a string. */
  datatype Cell = Missing | Num(num: real) | Stamp(year: int) | Text(text: string)

  /** Python truthiness, as tested by `not entity`: None, 0 and "" are falsy. */
  predicate Falsy(c: Cell) {
    match c
    case Missing => true
    case Num(x) => x == 0.0
    case Stamp(_) => false
    case Text(s) => s == ""
  }

  /** Python compares strings code point by code point; a proper prefix is smaller. */
  predicate StrLess(x: string, y: string)
    decreases |x|
  {
    if |x| == 0 then |y| > 0
    else if |y| == 0 then false
    else if x[0] != y[0] then x[0] < y[0]
    else StrLess(x[1..], y[1..])
  }

  /** Kinds are ranked so that the order on cells is total. */
  function Rank(c: Cell): nat {
    match c
    case Missing => 0
    case Num(_) => 1
    case Stamp(_) => 2
    case Text(_) => 3
  }

  /** The strict order used when sorting values of one column. */
  predicate CellLess(a: Cell, b: Cell) {
    match (a, b)
    case (Num(x), Num(y)) => x < y
    case (Stamp(x), Stamp(y)) => x < y
    case (Text(x), Text(y)) => StrLess(x, y)
    case _ => Rank(a) < Rank(b)
  }

  predicate CellLeq(a: Cell, b: Cell) {
    a == b || CellLess(a, b)
  }

  lemma {:induction false} StrLessIrreflexive(x: string)
    ensures !StrLess(x, x)
    decreases |x|
  {
    if |x| > 0 {
      StrLessIrreflexive(x[1..]);
    }
  }

  lemma {:induction false} StrLessTransitive(x: string, y: string, z: string)
    requires StrLess(x, y) && StrLess(y, z)
    ensures StrLess(x, z)
    decreases |x|
  {
    if |x| > 0 && x[0] == y[0] && y[0] == z[0] {
      StrLessTransitive(x[1..], y[1..], z[1..]);
    }
  }

  lemma {:induction false} StrLessTotal(x: string, y: string)
    ensures x == y || StrLess(x, y) || StrLess(y, x)
    decreases |x|
  {
    if |x| > 0 && |y| > 0 && x[0] == y[0] {
      StrLessTotal(x[1..], y[1..]);
      if x[1..] == y[1..] {
        assert x == [x[0]] + x[1..] && y == [y[0]] + y[1..];
      }
    }
  }

  lemma CellLessIrreflexive(a: Cell)
    ensures !CellLess(a, a)
  {
    if a.Text? {
      StrLessIrreflexive(a.text);
    }
  }

  lemma CellLessTransitive(a: Cell, b: Cell, c: Cell)
    requires CellLess(a, b) && CellLess(b, c)
    ensures CellLess(a, c)
  {
    if a.Text? && b.Text? && c.Text? {
      StrLessTransitive(a.text, b.text, c.text);
    }
  }

  /** Any two cells are comparable: the order is total. */
  lemma CellLessTotal(a: Cell, b: Cell)
    ensures a == b || CellLess(a, b) || CellLess(b, a)
  {
    if a.Text? && b.Text? {
      StrLessTotal(a.text, b.text);
    }
  }

  lemma CellLessAsymmetric(a: Cell, b: Cell)
    requires CellLess(a, b)
    ensures !CellLess(b, a)
  {
    if CellLess(b, a) {
      CellLessTransitive(a, b, a);
      CellLessIrreflexive(a);
    }
  }
}
