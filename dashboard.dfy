/** One run of the dashboard over the loaded table: filter, rank, compute
    the metrics and, when rows remain, the numbered listing. */
module Dashboard {
  import opened Wrappers
  import opened Roster
  import opened Ranking
  import opened Filters
  import opened Metrics
  import opened Projection

  /** What the page shows: the metrics, and the listing, or None where the
      page warns that no row matches the filters. */
  datatype Page = Page(summary: Summary, listing: Option<seq<DisplayRow>>)

  /** The filter, sort, metrics and projection steps of the page. The
      listing shows the matching rows in ranking order, numbered from 1,
      each rendered with its date as strftime('%d/%m/%Y') text, and is
      absent exactly when no row matches. */
  method ShowCandidates(table: seq<Candidate>, sel: Selection) returns (page: Page)
    ensures page.summary == Summarize(Select(table, sel))
    ensures page.listing.None? <==> Select(table, sel) == []
    ensures page.listing.Some? ==>
      var rows := page.listing.value;
      var ranked := SortView(Select(table, sel));
      && |rows| == |ranked|
      && (forall i :: 0 <= i < |rows| ==> rows[i].posicao == i + 1)
      && (forall i :: 0 <= i < |rows| ==> Restore(rows[i]) == Some(ranked[i]))
      && (forall i :: 0 <= i < |rows| ==> rows[i] == Render(ranked[i], i + 1))
  {
    var filtered := ApplyFilters(table, sel);
    var ranked := SortView(filtered);
    SortViewSortedPermutation(filtered);
    SummarizeReordered(ranked, filtered);
    var summary := Summarize(ranked);
    if |ranked| > 0 {
      var rows := Project(ranked);
      page := Page(summary, Some(rows));
    } else {
      page := Page(summary, None);
    }
  }

  /** Filtering CARGO on a value no row holds gives an empty view whose
      metrics are all zero, with no mean shown. */
  lemma UnknownCargoEmpty(table: seq<Candidate>, cargo: string)
    requires cargo != "Todos"
    requires forall i :: 0 <= i < |table| ==> table[i].cargo != cargo
    ensures var view := SortView(Select(table, Selection(cargo, "Todas", "Todos", "Todos", "Todos")));
      view == [] && Summarize(view) == Summary(0, 0, 0, false)
  {
    var sel := Selection(cargo, "Todas", "Todos", "Todos", "Todos");
    NoMatchEmpty(table, sel);
    SummarizeSpec([]);
  }
}
