/** The filter block of the dashboard: five equality filters on CARGO,
    LOCALIDADE, NEGRO, PCD and STATUS, each switched off by its sentinel,
    applied one after another to a copy of the loaded table. */
module Filters {
  import opened Roster

  datatype Field = Cargo | Localidade | Negro | Pcd | Status

  /** The cell of column `f` in row `r`. */
  function Column(r: Candidate, f: Field): string
  {
    match f
    case Cargo => r.cargo
    case Localidade => r.localidade
    case Negro => r.negro
    case Pcd => r.pcd
    case Status => r.status
  }

  /** The selector value that means "no constraint". */
  function Sentinel(f: Field): string
  {
    if f == Localidade then "Todas" else "Todos"
  }

  /** What the five selectboxes currently hold. */
  datatype Selection = Selection(cargo: string, localidade: string, negro: string, pcd: string, status: string)

  function Chosen(sel: Selection, f: Field): string
  {
    match f
    case Cargo => sel.cargo
    case Localidade => sel.localidade
    case Negro => sel.negro
    case Pcd => sel.pcd
    case Status => sel.status
  }

  /** The selection with every selector at its sentinel. */
  const NoConstraint: Selection := Selection("Todos", "Todas", "Todos", "Todos", "Todos")

  predicate Active(sel: Selection, f: Field)
  {
    Chosen(sel, f) != Sentinel(f)
  }

  /** Row `r` survives the filter on column `f`. */
  predicate Passes(r: Candidate, sel: Selection, f: Field)
  {
    Active(sel, f) ==> Column(r, f) == Chosen(sel, f)
  }

  /** The row equals every selection that is not a sentinel. */
  predicate Matches(r: Candidate, sel: Selection)
  {
    && Passes(r, sel, Cargo)
    && Passes(r, sel, Localidade)
    && Passes(r, sel, Negro)
    && Passes(r, sel, Pcd)
    && Passes(r, sel, Status)
  }

  /** The conjunctive filter in one pass (app.py:171-186): the rows that match,
      in table order. */
  function Select(s: seq<Candidate>, sel: Selection): seq<Candidate>
  {
    if s == [] then []
    else (if Matches(s[0], sel) then [s[0]] else []) + Select(s[1..], sel)
  }

  /** df[df[column] == v] (app.py:173-186): the rows whose column `f` holds
      `v`, in order. */
  function Where(s: seq<Candidate>, f: Field, v: string): seq<Candidate>
  {
    if s == [] then []
    else (if Column(s[0], f) == v then [s[0]] else []) + Where(s[1..], f, v)
  }

  /** One `if selected != sentinel: df = df[df[col] == selected]` step. */
  function Step(s: seq<Candidate>, sel: Selection, f: Field): seq<Candidate>
  {
    if Active(sel, f) then Where(s, f, Chosen(sel, f)) else s
  }

  /** `a` is `b` with some rows left out and the rest in their order. */
  predicate IsSubsequence(a: seq<Candidate>, b: seq<Candidate>)
  {
    if a == [] then true
    else if b == [] then false
    else (a[0] == b[0] && IsSubsequence(a[1..], b[1..])) || IsSubsequence(a, b[1..])
  }

  // ---------------------------------------------------------------------
  // The filter chain as app.py:171-186 runs it.
  // ---------------------------------------------------------------------

  /** The filter order of app.py:173-186. */
  const ChainLength := 5

  function FilterOrder(n: nat): Field
    requires n < ChainLength
  {
    if n == 0 then Cargo else if n == 1 then Localidade else if n == 2 then Negro else if n == 3 then Pcd else Status
  }

  /** Row `r` passes the first `n` filters of the chain. */
  predicate PassesFirst(r: Candidate, sel: Selection, n: nat)
    requires n <= ChainLength
  {
    n == 0 || (PassesFirst(r, sel, n - 1) && Passes(r, sel, FilterOrder(n - 1)))
  }

  /** The rows that pass the first `n` filters, in table order. */
  function SelectFirst(s: seq<Candidate>, sel: Selection, n: nat): seq<Candidate>
    requires n <= ChainLength
  {
    if s == [] then []
    else (if PassesFirst(s[0], sel, n) then [s[0]] else []) + SelectFirst(s[1..], sel, n)
  }

  lemma {:induction false} SelectFirstNone(s: seq<Candidate>, sel: Selection)
    ensures SelectFirst(s, sel, 0) == s
  {
    if s != [] {
      SelectFirstNone(s[1..], sel);
      assert s == [s[0]] + s[1..];
    }
  }

  lemma PassesFirstAll(r: Candidate, sel: Selection)
    ensures PassesFirst(r, sel, ChainLength) <==> Matches(r, sel)
  {
    assert PassesFirst(r, sel, 1) <==> Passes(r, sel, Cargo);
    assert PassesFirst(r, sel, 2) <==> PassesFirst(r, sel, 1) && Passes(r, sel, Localidade);
    assert PassesFirst(r, sel, 3) <==> PassesFirst(r, sel, 2) && Passes(r, sel, Negro);
    assert PassesFirst(r, sel, 4) <==> PassesFirst(r, sel, 3) && Passes(r, sel, Pcd);
    assert PassesFirst(r, sel, 5) <==> PassesFirst(r, sel, 4) && Passes(r, sel, Status);
  }

  lemma {:induction false} SelectFirstAll(s: seq<Candidate>, sel: Selection)
    ensures SelectFirst(s, sel, ChainLength) == Select(s, sel)
  {
    if s != [] {
      SelectFirstAll(s[1..], sel);
      PassesFirstAll(s[0], sel);
    }
  }

  /** Filter `n + 1` of the chain, applied to the rows that passed the first
      `n`, leaves the rows that pass the first `n + 1`. */
  lemma {:induction false} StepSelectFirst(s: seq<Candidate>, sel: Selection, n: nat)
    requires n < ChainLength
    ensures Step(SelectFirst(s, sel, n), sel, FilterOrder(n)) == SelectFirst(s, sel, n + 1)
  {
    var f := FilterOrder(n);
    if s != [] {
      StepSelectFirst(s[1..], sel, n);
      var rest := SelectFirst(s[1..], sel, n);
      if PassesFirst(s[0], sel, n) {
        assert SelectFirst(s, sel, n) == [s[0]] + rest;
        assert ([s[0]] + rest)[1..] == rest;
      } else {
        assert SelectFirst(s, sel, n) == rest;
      }
    } else {
      assert SelectFirst(s, sel, n) == [];
    }
  }

  lemma ChainFirstOne(table: seq<Candidate>, sel: Selection)
    ensures Step(table, sel, Cargo) == SelectFirst(table, sel, 1)
  {
    SelectFirstNone(table, sel);
    StepSelectFirst(table, sel, 0);
  }

  lemma ChainFirstTwo(table: seq<Candidate>, sel: Selection)
    ensures Step(Step(table, sel, Cargo), sel, Localidade) == SelectFirst(table, sel, 2)
  {
    ChainFirstOne(table, sel);
    StepSelectFirst(table, sel, 1);
  }

  lemma ChainFirstThree(table: seq<Candidate>, sel: Selection)
    ensures Step(Step(Step(table, sel, Cargo), sel, Localidade), sel, Negro) == SelectFirst(table, sel, 3)
  {
    ChainFirstTwo(table, sel);
    StepSelectFirst(table, sel, 2);
  }

  lemma ChainFirstFour(table: seq<Candidate>, sel: Selection)
    ensures Step(Step(Step(Step(table, sel, Cargo), sel, Localidade), sel, Negro), sel, Pcd)
            == SelectFirst(table, sel, 4)
  {
    ChainFirstThree(table, sel);
    StepSelectFirst(table, sel, 3);
  }

  /** The five steps in the order of app.py:173-186 narrow the table to the
      rows matching every selection that is not a sentinel. */
  lemma ChainIsSelect(table: seq<Candidate>, sel: Selection)
    ensures Step(Step(Step(Step(Step(table, sel, Cargo), sel, Localidade), sel, Negro), sel, Pcd), sel, Status)
            == Select(table, sel)
  {
    ChainFirstFour(table, sel);
    StepSelectFirst(table, sel, 4);
    SelectFirstAll(table, sel);
  }

  /** The filter block of the dashboard. Each of the five steps narrows the
      current view; together they keep exactly the rows that match every
      selection that is not a sentinel, in table order. */
  method ApplyFilters(table: seq<Candidate>, sel: Selection) returns (view: seq<Candidate>)
    ensures view == Select(table, sel)
    ensures IsSubsequence(view, table)
  {
    view := table;
    if sel.cargo != "Todos" {
      view := Where(view, Cargo, sel.cargo);
    }
    if sel.localidade != "Todas" {
      view := Where(view, Localidade, sel.localidade);
    }
    if sel.negro != "Todos" {
      view := Where(view, Negro, sel.negro);
    }
    if sel.pcd != "Todos" {
      view := Where(view, Pcd, sel.pcd);
    }
    if sel.status != "Todos" {
      view := Where(view, Status, sel.status);
    }
    ChainIsSelect(table, sel);
    SelectIsSubsequence(table, sel);
  }

  // ---------------------------------------------------------------------
  // What the filtered view is.
  // ---------------------------------------------------------------------

  /** The filtered view keeps rows in table order and alters none. */
  lemma {:induction false} SelectIsSubsequence(s: seq<Candidate>, sel: Selection)
    ensures IsSubsequence(Select(s, sel), s)
  {
    if s != [] {
      SelectIsSubsequence(s[1..], sel);
      var rest := Select(s[1..], sel);
      if Matches(s[0], sel) {
        assert Select(s, sel) == [s[0]] + rest;
        assert Select(s, sel)[1..] == rest;
      } else {
        assert Select(s, sel) == rest;
      }
    }
  }

  /** Every matching row is kept as often as it occurs, no other row is. */
  lemma {:induction false} SelectCounts(s: seq<Candidate>, sel: Selection, r: Candidate)
    ensures multiset(Select(s, sel))[r] == if Matches(r, sel) then multiset(s)[r] else 0
  {
    if s != [] {
      SelectCounts(s[1..], sel, r);
      assert s == [s[0]] + s[1..];
    }
  }

  /** With every selector at its sentinel the view is the whole table. */
  lemma {:induction false} NoConstraintKeepsAll(s: seq<Candidate>)
    ensures Select(s, NoConstraint) == s
  {
    if s != [] {
      NoConstraintKeepsAll(s[1..]);
      assert s == [s[0]] + s[1..];
    }
  }

  /** Filtering the filtered view again changes nothing. */
  lemma {:induction false} SelectIdempotent(s: seq<Candidate>, sel: Selection)
    ensures Select(Select(s, sel), sel) == Select(s, sel)
  {
    if s != [] {
      SelectIdempotent(s[1..], sel);
      var rest := Select(s[1..], sel);
      if Matches(s[0], sel) {
        assert Select(s, sel) == [s[0]] + rest;
        assert ([s[0]] + rest)[1..] == rest;
      } else {
        assert Select(s, sel) == rest;
      }
    }
  }

  /** Two column filters commute. */
  lemma {:induction false} WhereCommute(s: seq<Candidate>, f: Field, v: string, g: Field, w: string)
    ensures Where(Where(s, f, v), g, w) == Where(Where(s, g, w), f, v)
  {
    if s != [] {
      WhereCommute(s[1..], f, v, g, w);
      var x := s[0];
      var rf := Where(s[1..], f, v);
      var rg := Where(s[1..], g, w);
      if Column(x, f) == v {
        assert Where(s, f, v) == [x] + rf;
        assert ([x] + rf)[1..] == rf;
      } else {
        assert Where(s, f, v) == rf;
      }
      if Column(x, g) == w {
        assert Where(s, g, w) == [x] + rg;
        assert ([x] + rg)[1..] == rg;
      } else {
        assert Where(s, g, w) == rg;
      }
    }
  }

  /** A column filter applied twice is applied once. */
  lemma {:induction false} WhereIdempotent(s: seq<Candidate>, f: Field, v: string)
    ensures Where(Where(s, f, v), f, v) == Where(s, f, v)
  {
    if s != [] {
      WhereIdempotent(s[1..], f, v);
      var rest := Where(s[1..], f, v);
      if Column(s[0], f) == v {
        assert Where(s, f, v) == [s[0]] + rest;
        assert ([s[0]] + rest)[1..] == rest;
      } else {
        assert Where(s, f, v) == rest;
      }
    }
  }

  /** Filtering on a value no row holds leaves an empty view. */
  lemma {:induction false} NoMatchEmpty(s: seq<Candidate>, sel: Selection)
    requires forall i :: 0 <= i < |s| ==> !Matches(s[i], sel)
    ensures Select(s, sel) == []
  {
    if s != [] {
      assert forall i :: 0 <= i < |s| - 1 ==> s[1..][i] == s[i + 1];
      NoMatchEmpty(s[1..], sel);
    }
  }
}
