/** The four metrics above the table: the number of rows, the number of
    distinct CARGO and LOCALIDADE values, and whether the mean NOTA is shown. */
module Metrics {
  import opened Text
  import opened Roster
  import opened Filters
  import opened FilterOptions

  datatype Summary = Summary(total: nat, cargos: nat, localidades: nat, showsMean: bool)

  /** df[col].nunique(). */
  function DistinctCount(view: seq<Candidate>, f: Field): nat
  {
    |Elements(ColumnValues(view, f))|
  }

  /** The metrics of a view (app.py:232-246); the mean is emitted only for a
      non-empty view. */
  function Summarize(view: seq<Candidate>): Summary
  {
    Summary(|view|, DistinctCount(view, Cargo), DistinctCount(view, Localidade), |view| > 0)
  }

  /** The distinct counts never exceed the row count and are zero exactly
      when the view is empty. The clauses on `total` and `showsMean` restate
      the definition of Summarize and are kept so the lemma lists every
      field of the summary in one place. */
  lemma SummarizeSpec(view: seq<Candidate>)
    ensures var m := Summarize(view);
      && m.total == |view|
      && m.cargos <= m.total && m.localidades <= m.total
      && (m.cargos == 0 <==> view == [])
      && (m.localidades == 0 <==> view == [])
      && (m.showsMean <==> view != [])
  {
    ElementsBound(ColumnValues(view, Cargo));
    ElementsBound(ColumnValues(view, Localidade));
  }

  /** The distinct count of a column is the number of values its selector
      offers besides the sentinel, when both are taken over the same rows. */
  lemma DistinctCountIsOptionCount(view: seq<Candidate>, f: Field)
    requires f == Cargo || f == Localidade
    ensures DistinctCount(view, f) == |ColumnOptions(view, f)| - 1
  {
    var vals := ColumnValues(view, f);
    var sd := SortedDistinct(vals);
    SortedDistinctSpec(vals);
    assert NoDuplicates(sd) by {
      forall i, j | 0 <= i < j < |sd| ensures sd[i] != sd[j] {
        LessIrreflexive(sd[i]);
      }
    }
    ElementsOfDistinct(sd);
    assert Elements(sd) == Elements(vals);
  }

  lemma ColumnValueKept(a: seq<Candidate>, b: seq<Candidate>, f: Field, v: string)
    requires multiset(a) == multiset(b)
    requires v in ColumnValues(a, f)
    ensures v in ColumnValues(b, f)
  {
    var i :| 0 <= i < |a| && ColumnValues(a, f)[i] == v;
    assert a[i] in multiset(b);
    var j :| 0 <= j < |b| && b[j] == a[i];
    assert ColumnValues(b, f)[j] == v;
  }

  lemma SameDistinctCount(a: seq<Candidate>, b: seq<Candidate>, f: Field)
    requires multiset(a) == multiset(b)
    ensures DistinctCount(a, f) == DistinctCount(b, f)
  {
    forall v ensures v in ColumnValues(a, f) <==> v in ColumnValues(b, f) {
      if v in ColumnValues(a, f) { ColumnValueKept(a, b, f, v); }
      if v in ColumnValues(b, f) { ColumnValueKept(b, a, f, v); }
    }
    assert Elements(ColumnValues(a, f)) == Elements(ColumnValues(b, f));
  }

  /** The metrics do not depend on the order of the rows, so they are the
      same before and after ranking. */
  lemma SummarizeReordered(a: seq<Candidate>, b: seq<Candidate>)
    requires multiset(a) == multiset(b)
    ensures Summarize(a) == Summarize(b)
  {
    assert |a| == |multiset(a)| == |multiset(b)| == |b|;
    SameDistinctCount(a, b, Cargo);
    SameDistinctCount(a, b, Localidade);
  }
}
