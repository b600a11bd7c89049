/** The choices offered by the five selectors: the sentinel first, then for
    CARGO and LOCALIDADE the distinct values of the column in ascending order,
    and fixed lists for NEGRO, PCD and STATUS. */
module FilterOptions {
  import opened Text
  import opened Roster
  import opened Filters

  const NegroOptions: seq<string> := ["Todos", "SIM", "NAO"]
  const PcdOptions: seq<string> := ["Todos", "SIM", "NAO"]
  const StatusOptions: seq<string> := ["Todos", "VAGA", "CR"]

  ghost predicate StrictlyAscending(s: seq<string>)
  {
    forall i, j :: 0 <= i < j < |s| ==> Less(s[i], s[j])
  }

  /** df[col].tolist(): the column in row order. */
  function ColumnValues(t: seq<Candidate>, f: Field): (r: seq<string>)
    ensures |r| == |t| && forall i :: 0 <= i < |t| ==> r[i] == Column(t[i], f)
  {
    if t == [] then [] else [Column(t[0], f)] + ColumnValues(t[1..], f)
  }

  /** Put `x` into an ascending duplicate-free list unless it is there. */
  function AddDistinct(x: string, s: seq<string>): seq<string>
  {
    if s == [] then [x]
    else if x == s[0] then s
    else if Less(x, s[0]) then [x] + s
    else [s[0]] + AddDistinct(x, s[1..])
  }

  /** sorted(values.unique()). */
  function SortedDistinct(values: seq<string>): seq<string>
  {
    if values == [] then [] else AddDistinct(values[0], SortedDistinct(values[1..]))
  }

  /** The CARGO or LOCALIDADE selector (app.py:146-151): its sentinel, then
      the sorted distinct values of the column. */
  function ColumnOptions(t: seq<Candidate>, f: Field): seq<string>
    requires f == Cargo || f == Localidade
  {
    [Sentinel(f)] + SortedDistinct(ColumnValues(t, f))
  }

  lemma {:induction false} AddDistinctSpec(x: string, s: seq<string>)
    requires StrictlyAscending(s)
    ensures StrictlyAscending(AddDistinct(x, s))
    ensures forall y :: y in AddDistinct(x, s) <==> y == x || y in s
  {
    if s == [] {
    } else if x == s[0] {
    } else if Less(x, s[0]) {
      forall j | 0 <= j < |s| ensures Less(x, s[j]) {
        if j > 0 { LessTransitive(x, s[0], s[j]); }
      }
      assert forall y :: y in [x] + s <==> y == x || y in s;
      assert forall i, j :: 0 <= i < j < |[x] + s| ==> Less(([x] + s)[i], ([x] + s)[j]) by {
        forall i, j | 0 <= i < j < |[x] + s| ensures Less(([x] + s)[i], ([x] + s)[j]) {
          if i > 0 { assert ([x] + s)[i] == s[i - 1]; }
          assert ([x] + s)[j] == s[j - 1];
        }
      }
    } else {
      var tail := s[1..];
      assert StrictlyAscending(tail) by {
        forall i, j | 0 <= i < j < |tail| ensures Less(tail[i], tail[j]) {
          assert tail[i] == s[i + 1] && tail[j] == s[j + 1];
        }
      }
      AddDistinctSpec(x, tail);
      var ins := AddDistinct(x, tail);
      LessTotal(x, s[0]);
      forall j | 0 <= j < |ins| ensures Less(s[0], ins[j]) {
        assert ins[j] in ins;
        if ins[j] != x {
          var m :| 0 <= m < |tail| && tail[m] == ins[j];
          assert s[m + 1] == ins[j];
        }
      }
      assert s == [s[0]] + tail;
      var r := [s[0]] + ins;
      assert AddDistinct(x, s) == r;
      forall i, j | 0 <= i < j < |r| ensures Less(r[i], r[j]) {
        assert r[j] == ins[j - 1];
        if i > 0 { assert r[i] == ins[i - 1]; }
      }
    }
  }

  /** The distinct values come out strictly ascending, each one a value of
      the input and every value of the input among them. */
  lemma {:induction false} SortedDistinctSpec(values: seq<string>)
    ensures StrictlyAscending(SortedDistinct(values))
    ensures forall y :: y in SortedDistinct(values) <==> y in values
  {
    if values != [] {
      SortedDistinctSpec(values[1..]);
      AddDistinctSpec(values[0], SortedDistinct(values[1..]));
      assert values == [values[0]] + values[1..];
    }
  }

  /** Only one strictly ascending list holds a given set of values, so
      SortedDistinct is what sorting the unique values yields however it is
      computed. */
  lemma {:induction false} StrictlyAscendingUnique(a: seq<string>, b: seq<string>)
    requires StrictlyAscending(a) && StrictlyAscending(b)
    requires forall y :: y in a <==> y in b
    ensures a == b
    decreases |a|
  {
    assert a != [] ==> a[0] in b;
    assert b != [] ==> b[0] in a;
    if a != [] && b != [] {
      assert a[0] in b && b[0] in a;
      var i :| 0 <= i < |b| && b[i] == a[0];
      var j :| 0 <= j < |a| && a[j] == b[0];
      assert i > 0 ==> Less(b[0], a[0]);
      assert j > 0 ==> Less(a[0], b[0]);
      LessAsymmetric(a[0], b[0]);
      assert a[0] == b[0];
      var ta, tb := a[1..], b[1..];
      assert StrictlyAscending(ta) by {
        forall p, q | 0 <= p < q < |ta| ensures Less(ta[p], ta[q]) {
          assert ta[p] == a[p + 1] && ta[q] == a[q + 1];
        }
      }
      assert StrictlyAscending(tb) by {
        forall p, q | 0 <= p < q < |tb| ensures Less(tb[p], tb[q]) {
          assert tb[p] == b[p + 1] && tb[q] == b[q + 1];
        }
      }
      forall y ensures y in ta <==> y in tb {
        if y in ta {
          var p :| 0 <= p < |ta| && ta[p] == y;
          assert Less(a[0], y) by { assert a[p + 1] == y; }
          LessIrreflexive(y);
          assert y in b && y != b[0];
          var q :| 0 <= q < |b| && b[q] == y;
          assert q > 0 && tb[q - 1] == y;
        }
        if y in tb {
          var q :| 0 <= q < |tb| && tb[q] == y;
          assert Less(b[0], y) by { assert b[q + 1] == y; }
          LessIrreflexive(y);
          assert y in a && y != a[0];
          var p :| 0 <= p < |a| && a[p] == y;
          assert p > 0 && ta[p - 1] == y;
        }
      }
      StrictlyAscendingUnique(ta, tb);
      assert a == [a[0]] + ta && b == [b[0]] + tb;
    }
  }

  /** The CARGO and LOCALIDADE selectors: the sentinel, then values strictly
      ascending, each of which occurs in the column, and every value of the
      column among them. */
  lemma ColumnOptionsSpec(t: seq<Candidate>, f: Field)
    requires f == Cargo || f == Localidade
    ensures var o := ColumnOptions(t, f);
      && |o| >= 1 && o[0] == Sentinel(f)
      && StrictlyAscending(o[1..])
      && (forall v :: v in o[1..] <==> exists i :: 0 <= i < |t| && Column(t[i], f) == v)
  {
    var vals := ColumnValues(t, f);
    SortedDistinctSpec(vals);
    var o := ColumnOptions(t, f);
    assert o[1..] == SortedDistinct(vals);
    forall v ensures v in o[1..] <==> exists i :: 0 <= i < |t| && Column(t[i], f) == v {
      if v in vals {
        var i :| 0 <= i < |vals| && vals[i] == v;
        assert Column(t[i], f) == v;
      }
    }
  }

  /** Each selector opens on its first option; with all five there, the
      view is the whole table. */
  lemma DefaultsShowAll(t: seq<Candidate>, loaded: seq<Candidate>)
    ensures Select(t, Selection(ColumnOptions(loaded, Cargo)[0], ColumnOptions(loaded, Localidade)[0],
                                NegroOptions[0], PcdOptions[0], StatusOptions[0])) == t
  {
    NoConstraintKeepsAll(t);
  }
}
