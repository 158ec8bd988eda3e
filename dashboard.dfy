/**
  One pass of the dashboard: given the loaded records (or the loader's failure) and the current
  selection, build the three option lists, filter the records and compute the metrics. Drawing the
  widgets, charts and table is outside the model; the view records what would be handed to them.
 */
module Dashboard {
  import opened Wrappers
  import opened Accidents
  import opened FilterOptions
  import opened Filters
  import opened Metrics

  /** What the page shows after a successful pass. */
  datatype View = View(
    regionOptions: seq<string>,
    monthOptions: seq<string>,
    causeOptions: seq<string>,
    filtered: seq<Record>,
    summary: Summary)

  /** The outcome of a pass: the loader failed, a month of the data is not in the calendar (the
      month-list construction raises and nothing after it runs), or the page is shown. */
  datatype Screen = LoadFailed | MonthNotInCalendar(month: string) | Shown(view: View)

  /** One pass of the dashboard script over the loaded data and the user's selection. */
  method Render(loaded: Option<seq<Record>>, sel: Selection) returns (screen: Screen)
    ensures loaded.None? <==> screen == LoadFailed
    ensures loaded.Some? && MonthOptions(loaded.value).Failure? ==>
      screen == MonthNotInCalendar(MonthOptions(loaded.value).error)
    ensures loaded.Some? && MonthOptions(loaded.value).Success? ==>
      && screen.Shown?
      && screen.view.regionOptions == RegionOptions(loaded.value)
      && screen.view.monthOptions == MonthOptions(loaded.value).value
      && screen.view.causeOptions == CauseOptions(loaded.value)
      && screen.view.filtered == Filtered(loaded.value, sel)
      && screen.view.summary.totalAcidentes == |Filtered(loaded.value, sel)|
      && screen.view.summary.totalMortos == SumMortos(Filtered(loaded.value, sel))
      && screen.view.summary == Summarize(Filtered(loaded.value, sel))
  {
    if loaded.None? {
      return LoadFailed;
    }
    var dfAcidentes := loaded.value;
    var listaUfs := RegionOptions(dfAcidentes);
    var mesesDisponiveis := MonthOptions(dfAcidentes);
    if mesesDisponiveis.Failure? {
      return MonthNotInCalendar(mesesDisponiveis.error);
    }
    var listaCausas := CauseOptions(dfAcidentes);
    var dfFiltrado := ApplyFilters(dfAcidentes, sel);
    var metricas := Summarize(dfFiltrado);
    screen := Shown(View(listaUfs, mesesDisponiveis.value, listaCausas, dfFiltrado, metricas));
  }

  /** Selecting every state and every month on offer restricts nothing: it filters exactly as
      an empty state and month selection does. */
  lemma SelectingAllOptionsIsNoRestriction(rs: seq<Record>, causa: string)
    requires MonthOptions(rs).Success?
    ensures Filtered(rs, Selection(RegionOptions(rs), MonthOptions(rs).value, causa))
         == Filtered(rs, Selection([], [], causa))
  {
    var ufs, meses := RegionOptions(rs), MonthOptions(rs).value;
    forall r | r in rs ensures r.uf in ufs && r.mes in meses {
      assert exists rec :: rec in rs && rec.uf == r.uf;
      assert exists rec :: rec in rs && rec.mes == r.mes;
    }
    CoveringSelectionIsNoRestriction(rs, ufs, meses, causa);
  }

  /** The page as first shown (every state and month selected, the first cause entry chosen)
      filters nothing out, and its metrics are those of the whole data set. */
  lemma DefaultSelectionShowsAll(rs: seq<Record>)
    requires MonthOptions(rs).Success?
    ensures CauseOptions(rs)[0] == Todas
    ensures Filtered(rs, Selection(RegionOptions(rs), MonthOptions(rs).value, CauseOptions(rs)[0])) == rs
    ensures Summarize(Filtered(rs, Selection(RegionOptions(rs), MonthOptions(rs).value, CauseOptions(rs)[0])))
         == Summarize(rs)
  {
    SelectingAllOptionsIsNoRestriction(rs, Todas);
    NoSelectionKeepsAll(rs);
  }

  /** A two-record data set: one death in SP in January, none in RJ in February. */
  function SampleRecords(): seq<Record>
  {
    [Record("SP", "Janeiro", "Excesso de velocidade", 1), Record("RJ", "Fevereiro", "Chuva", 0)]
  }

  /** Selecting SP alone leaves the SP record: one accident, one death, a 100% rate. */
  lemma SampleOnlySP()
    ensures Filtered(SampleRecords(), Selection(["SP"], [], Todas)) == [SampleRecords()[0]]
    ensures Summarize([SampleRecords()[0]]) == Summary(1, 1, 100.0)
  {
    var rs := SampleRecords();
    assert Filtered(rs, Selection(["SP"], [], Todas)) == [rs[0]] + Filtered(rs[1..], Selection(["SP"], [], Todas));
  }

  /** Selecting nothing keeps both records: two accidents, one death, a 50% rate. */
  lemma SampleNoSelection()
    ensures Filtered(SampleRecords(), Selection([], [], Todas)) == SampleRecords()
    ensures Summarize(SampleRecords()) == Summary(2, 1, 50.0)
  {
    NoSelectionKeepsAll(SampleRecords());
  }

  /** Selecting a month no record has leaves nothing: zero accidents, zero deaths, a 0% rate. */
  lemma SampleNoMatch()
    ensures Filtered(SampleRecords(), Selection(["SP", "RJ"], ["Março"], Todas)) == []
    ensures Summarize([]) == Summary(0, 0, 0.0)
  {
  }
}
