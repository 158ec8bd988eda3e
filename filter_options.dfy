/**
  The choices the three selectors offer: the states present in the data, the months present in
  the data in calendar order, and the causes present in the data after the "every cause" entry.
 */
module FilterOptions {
  import opened Wrappers
  import opened Masking
  import opened Ordering
  import opened Accidents

  /** The twelve month names in calendar order. */
  const OrdemMeses: seq<string> :=
    ["Janeiro", "Fevereiro", "Março", "Abril", "Maio", "Junho",
     "Julho", "Agosto", "Setembro", "Outubro", "Novembro", "Dezembro"]

  /** The distinct values of a column in ascending string order, as sorting a column's
      `unique()` gives them. */
  function SortedValues(col: seq<string>): (vals: seq<string>)
    ensures StrictlySorted(vals, LexLess)
    ensures Distinct(vals)
    ensures forall v :: v in vals <==> v in col
  {
    var u := Unique(col);
    StringOrder(u);
    SortBySorted(u, LexLess);
    var vals := SortBy(u, LexLess);
    assert forall i, j :: 0 <= i < j < |vals| ==> LexLess(vals[i], vals[j]) && !LexLess(vals[j], vals[i]);
    vals
  }

  /** The region list: every state of the data once, in ascending order. */
  function RegionOptions(rs: seq<Record>): (opts: seq<string>)
    ensures StrictlySorted(opts, LexLess) && Distinct(opts)
    ensures forall u :: u in opts <==> exists r :: r in rs && r.uf == u
  {
    SortedValues(Column(rs, (r: Record) => r.uf))
  }

  /** The position of a month name in the calendar; 12 for a name that is not a month. */
  function MonthIndex(m: string): (i: nat)
    ensures i <= 12
    ensures i < 12 <==> m in OrdemMeses
    ensures i < 12 ==> OrdemMeses[i] == m
  {
    IndexOf(OrdemMeses, m)
  }

  /** The month `a` comes before the month `b` in the calendar. */
  predicate EarlierMonth(a: string, b: string)
  {
    MonthIndex(a) < MonthIndex(b)
  }

  /** The calendar order is a strict order, and it orders any two different calendar months. */
  lemma MonthOrder(ms: seq<string>)
    requires forall i :: 0 <= i < |ms| ==> ms[i] in OrdemMeses
    ensures Transitive(EarlierMonth) && Asymmetric(EarlierMonth)
    ensures TotalOn(EarlierMonth, ms)
  {
    forall a, b | a in ms && b in ms && a != b ensures EarlierMonth(a, b) || EarlierMonth(b, a) {
      assert OrdemMeses[MonthIndex(a)] == a && OrdemMeses[MonthIndex(b)] == b;
    }
  }

  /** The month list: the distinct months of the data sorted by their calendar position. Looking
      up a month that is not in the calendar fails, and the failure names that month. */
  function MonthOptions(rs: seq<Record>): (r: Result<seq<string>, string>)
    ensures r.Failure? <==> exists rec :: rec in rs && rec.mes !in OrdemMeses
    ensures r.Failure? ==> r.error !in OrdemMeses && exists rec :: rec in rs && rec.mes == r.error
    ensures r.Success? ==> StrictlySorted(r.value, EarlierMonth) && Distinct(r.value)
    ensures r.Success? ==> forall m :: m in r.value <==> exists rec :: rec in rs && rec.mes == m
  {
    var meses := Unique(Column(rs, (r: Record) => r.mes));
    match FirstNotIn(meses, OrdemMeses)
    case Some(m) => Failure(m)
    case None =>
      CalendarOrderSorts(meses);
      Success(SortBy(meses, EarlierMonth))
  }

  /** Sorting distinct calendar months by calendar position gives each of them once, in
      calendar order. */
  lemma CalendarOrderSorts(ms: seq<string>)
    requires Distinct(ms)
    requires forall i :: 0 <= i < |ms| ==> ms[i] in OrdemMeses
    ensures StrictlySorted(SortBy(ms, EarlierMonth), EarlierMonth)
    ensures Distinct(SortBy(ms, EarlierMonth))
    ensures forall m :: m in SortBy(ms, EarlierMonth) <==> m in ms
  {
    MonthOrder(ms);
    SortBySorted(ms, EarlierMonth);
  }

  /** The calendar lists each month once, so each month's position is its calendar index. */
  lemma CalendarSorted()
    ensures Distinct(OrdemMeses)
    ensures StrictlySorted(OrdemMeses, EarlierMonth)
  {
    forall i | 0 <= i < 12 ensures MonthIndex(OrdemMeses[i]) == i {
      IndexOfDistinct(OrdemMeses, i);
    }
  }

  /** The month list is the calendar with the months absent from the data struck out. */
  lemma MonthOptionsFollowCalendar(rs: seq<Record>)
    requires MonthOptions(rs).Success?
    ensures MonthOptions(rs).value == Where(OrdemMeses, m => exists rec :: rec in rs && rec.mes == m)
  {
    var present := m => exists rec :: rec in rs && rec.mes == m;
    var listed := MonthOptions(rs).value;
    var calendar := Where(OrdemMeses, present);
    CalendarSorted();
    WhereSorted(OrdemMeses, present, EarlierMonth);
    MonthOrder([]);
    SortedUnique(listed, calendar, EarlierMonth);
  }

  /** When the month list fails, it names the month of the first record, in data order, whose
      month is not in the calendar. */
  lemma MonthFailureNamesFirstUnknownRecord(rs: seq<Record>)
    requires MonthOptions(rs).Failure?
    ensures exists k :: (0 <= k < |rs| && rs[k].mes == MonthOptions(rs).error
                         && forall j :: 0 <= j < k ==> rs[j].mes in OrdemMeses)
  {
    var col := Column(rs, (r: Record) => r.mes);
    FirstNotInRowOrder(col, OrdemMeses);
    var k := IndexOf(col, MonthOptions(rs).error);
    assert rs[k].mes == MonthOptions(rs).error;
  }

  /** The cause list: the "every cause" entry, then every cause of the data once, ascending. */
  function CauseOptions(rs: seq<Record>): (opts: seq<string>)
    ensures |opts| > 0 && opts[0] == Todas
    ensures StrictlySorted(opts[1..], LexLess) && Distinct(opts[1..])
    ensures forall c :: c in opts[1..] <==> exists r :: r in rs && r.causaAcidente == c
  {
    var causes := SortedValues(Column(rs, (r: Record) => r.causaAcidente));
    assert ([Todas] + causes)[1..] == causes;
    [Todas] + causes
  }
}
