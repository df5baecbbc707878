/** Values of the INT columns the window functions read, and the ascending
    order in which the upstream sort delivers them. */
module Datums {

  /** The conventional Some/None datatype. */
  datatype Option<T> = None | Some(value: T)

  /** One value of an INT column; None is SQL NULL. */
  type Datum = Option<int>

  /** Ascending order on one column: NULL sorts before every integer and is
      a value of its own (NULL equals NULL). */
  predicate DatumLess(a: Datum, b: Datum) {
    match (a, b)
    case (None, Some(_)) => true
    case (Some(x), Some(y)) => x < y
    case _ => false
  }

  /** Lexicographic order on the values of a column list, column by column. */
  predicate LexLess(a: seq<Datum>, b: seq<Datum>)
    decreases |a|
  {
    |a| > 0 && |b| > 0 &&
    (DatumLess(a[0], b[0]) || (a[0] == b[0] && LexLess(a[1..], b[1..])))
  }

  predicate LexLessOrEqual(a: seq<Datum>, b: seq<Datum>) {
    a == b || LexLess(a, b)
  }

  /** NULL is below every integer, and nothing is below NULL. */
  lemma NullSortsFirst(d: Datum)
    ensures d != None <==> DatumLess(None, d)
    ensures !DatumLess(d, None)
  {
  }

  /** No key sorts strictly before a lone NULL. */
  lemma NothingBeforeNull(a: seq<Datum>)
    ensures !LexLess(a, [None])
  {
    var lone: seq<Datum> := [None];
    if |a| > 0 && a[0] == None {
      assert lone[1..] == [];
    }
  }

  lemma {:induction false} LexLessIrreflexive(a: seq<Datum>)
    ensures !LexLess(a, a)
    decreases |a|
  {
    if |a| > 0 {
      LexLessIrreflexive(a[1..]);
    }
  }

  lemma {:induction false} LexLessTransitive(a: seq<Datum>, b: seq<Datum>, c: seq<Datum>)
    requires LexLess(a, b) && LexLess(b, c)
    ensures LexLess(a, c)
    decreases |a|
  {
    if a[0] == b[0] && b[0] == c[0] {
      LexLessTransitive(a[1..], b[1..], c[1..]);
    }
  }

  lemma LexLessAsymmetric(a: seq<Datum>, b: seq<Datum>)
    requires LexLess(a, b)
    ensures !LexLess(b, a) && a != b
  {
    if LexLess(b, a) {
      LexLessTransitive(a, b, a);
      LexLessIrreflexive(a);
    }
    LexLessIrreflexive(a);
  }

  /** Two different keys of the same width are always ordered one way or the other. */
  lemma {:induction false} LexLessTotal(a: seq<Datum>, b: seq<Datum>)
    requires |a| == |b| && a != b
    ensures LexLess(a, b) || LexLess(b, a)
    decreases |a|
  {
    if a[0] == b[0] {
      assert a == [a[0]] + a[1..] && b == [b[0]] + b[1..];
      LexLessTotal(a[1..], b[1..]);
    }
  }

  lemma LexLessOrEqualTransitive(a: seq<Datum>, b: seq<Datum>, c: seq<Datum>)
    requires LexLessOrEqual(a, b) && LexLessOrEqual(b, c)
    ensures LexLessOrEqual(a, c)
  {
    if a != b && b != c {
      LexLessTransitive(a, b, c);
    }
  }

  lemma LexLessOrEqualAntisymmetric(a: seq<Datum>, b: seq<Datum>)
    requires LexLessOrEqual(a, b) && LexLessOrEqual(b, a)
    ensures a == b
  {
    if a != b {
      LexLessAsymmetric(a, b);
    }
  }

  /** A strict step followed by a weak one (or the other way round) is strict. */
  lemma LexLessMixedTransitive(a: seq<Datum>, b: seq<Datum>, c: seq<Datum>)
    requires (LexLess(a, b) && LexLessOrEqual(b, c)) || (LexLessOrEqual(a, b) && LexLess(b, c))
    ensures LexLess(a, c)
  {
    if a != b && b != c {
      LexLessTransitive(a, b, c);
    }
  }
}
