/**
  The county-selection dashboard with its React hooks taken out: the page
  state is a value, each handler and effect is a function from one state to
  the next, and a market-share fetch is returned as a request instead of being
  sent.
 */
module Dashboard {
  import opened Wrappers
  import opened Seqs
  import Strings
  import JsMap
  import opened FipsTable

  /** One month of a contract's series; a `null` market share is `None`. */
  datatype Sample = Sample(month: string, enrolled: int, totalEnrolled: int, marketShare: Option<real>)

  datatype Contract = Contract(contractId: string, orgName: string, series: seq<Sample>)

  /** One item of the state selector. */
  datatype StateOption = StateOption(abbr: string, name: string)

  datatype MonthRange = MonthRange(start: string, end: string)

  /** The page's `useState` cells. */
  datatype Page = Page(
    selectedState: string,
    selectedCounties: seq<string>,
    data: seq<Contract>,
    loading: bool,
    latestMonthLoading: bool,
    error: Option<string>,
    latestMonth: Option<MonthRange>)

  /** The arguments of one `fetchMarketShare` call. */
  datatype Request = Request(counties: seq<string>, start: string, end: string)

  /** The state on first render. */
  const Initial := Page("", [], [], false, true, None, None)

  const StartAfterEnd := "Start month cannot be after end month"

  /** What the engine throws when a contract's series is empty and the filter
      reads `market_share` of `undefined`. */
  const EmptySeriesError := "Cannot read properties of undefined (reading 'market_share')"

  /** Contracts whose latest share is below this are not shown. */
  const Threshold: real := 0.02

  // ---------------------------------------------------------------------------
  // Values derived from the lookup table

  function StateOf(e: Entry): string
  {
    e.state
  }

  function StatePair(e: Entry): (string, string)
  {
    (e.state, e.stateName)
  }

  function ToOption(p: (string, string)): StateOption
  {
    StateOption(p.0, p.1)
  }

  function Abbr(o: StateOption): string
  {
    o.abbr
  }

  /** The selector's items: `new Map(table.map(d => [d.state, d.state_name]))`
      read back through `entries()`. */
  function States(table: seq<Entry>): (r: seq<StateOption>)
    ensures |r| <= |table|
  {
    MapSeq(JsMap.Entries(MapSeq(table, StatePair)), ToOption)
  }

  /** One item per abbreviation in the table, in order of first appearance,
      named after the last row with that abbreviation. */
  lemma StatesListing(table: seq<Entry>)
    ensures var r := States(table);
            && UniqueBy(r, Abbr)
            && KeySet(r, Abbr) == KeySet(table, StateOf)
            && (forall a, b :: 0 <= a < b < |r| ==>
                  FindIndex(table, StateOf, r[a].abbr) < FindIndex(table, StateOf, r[b].abbr))
            && (forall k :: 0 <= k < |r| ==>
                  0 <= LastIndex(table, StateOf, |table|, r[k].abbr)
                  && r[k].name == table[LastIndex(table, StateOf, |table|, r[k].abbr)].stateName)
  {
    var pairs := MapSeq(table, StatePair);
    var m := JsMap.Entries(pairs);
    var d := DedupeBy(pairs, JsMap.Key);
    var r := States(table);
    assert |m| == |MapSeq(m, JsMap.Key)| == |MapSeq(d, JsMap.Key)| == |d|;
    assert forall i :: 0 <= i < |m| ==> Abbr(r[i]) == JsMap.Key(d[i]) by {
      forall i | 0 <= i < |m|
        ensures Abbr(r[i]) == JsMap.Key(d[i])
      {
        assert MapSeq(m, JsMap.Key)[i] == MapSeq(d, JsMap.Key)[i];
      }
    }
    assert forall i :: 0 <= i < |table| ==> JsMap.Key(pairs[i]) == StateOf(table[i]);
    KeySetTransfer(r, Abbr, d, JsMap.Key);
    KeySetTransfer(pairs, JsMap.Key, table, StateOf);
    DedupeOrdered(pairs, JsMap.Key);
    forall a, b | 0 <= a < b < |r|
      ensures FindIndex(table, StateOf, r[a].abbr) < FindIndex(table, StateOf, r[b].abbr)
    {
      FindIndexTransfer(pairs, JsMap.Key, table, StateOf, r[a].abbr);
      FindIndexTransfer(pairs, JsMap.Key, table, StateOf, r[b].abbr);
      assert r[a].abbr == JsMap.Key(d[a]) && r[b].abbr == JsMap.Key(d[b]);
    }
    forall k | 0 <= k < |r|
      ensures 0 <= LastIndex(table, StateOf, |table|, r[k].abbr)
      ensures r[k].name == table[LastIndex(table, StateOf, |table|, r[k].abbr)].stateName
    {
      LastIndexTransfer(pairs, JsMap.Key, table, StateOf, |table|, r[k].abbr);
      assert r[k] == ToOption(m[k]);
    }
  }

  /** Keeps the rows of one state. */
  function InState(st: string): Entry -> bool
  {
    (e: Entry) => e.state == st
  }

  /** `countiesForState`: nothing while no state is chosen (the empty string is
      falsy), otherwise the state's rows in table order. */
  function CountiesForState(table: seq<Entry>, st: string): (r: seq<Entry>)
    ensures st == "" ==> r == []
    ensures forall i :: 0 <= i < |r| ==> r[i].state == st
    ensures forall e :: e in r ==> e in table
    ensures |r| > 0 <==> st != "" && exists e :: e in table && e.state == st
  {
    if st == "" then []
    else
      FilterCounts(table, InState(st));
      FilterNonEmpty(table, InState(st));
      Filter(table, InState(st))
  }

  lemma CountiesForStateRows(table: seq<Entry>, st: string)
    ensures st == "" ==> CountiesForState(table, st) == []
    ensures st != "" ==> forall e :: e in CountiesForState(table, st) <==> e in table && e.state == st
    ensures IsSubseq(CountiesForState(table, st), table)
    ensures forall e :: e in table && e.state == st && st != "" ==>
              multiset(CountiesForState(table, st))[e] == multiset(table)[e]
  {
    if st == "" {
      var none: seq<Entry>, at: seq<int> := [], [];
      assert EmbedsVia(none, table, at);
    } else {
      forall e
        ensures e in CountiesForState(table, st) <==> e in table && e.state == st
      {
        FilterMember(table, InState(st), e);
      }
      var idx := FilterIsSubseq(table, InState(st));
      FilterCounts(table, InState(st));
    }
  }

  /** The codes of the chosen state's counties, in table order. */
  function CountyFips(table: seq<Entry>, st: string): seq<string>
  {
    MapSeq(CountiesForState(table, st), FipsOf)
  }

  /** `allCountiesSelected`: only the lengths are compared. */
  function AllCountiesSelected(table: seq<Entry>, p: Page): (all: bool)
    ensures all ==> p.selectedState != "" && |p.selectedCounties| > 0
    ensures p.selectedCounties == CountyFips(table, p.selectedState) ==>
              (all <==> exists e :: e in table && e.state == p.selectedState && p.selectedState != "")
  {
    |CountiesForState(table, p.selectedState)| > 0
    && |p.selectedCounties| == |CountiesForState(table, p.selectedState)|
  }

  /** The text after "Select all counties in": the item's name, or the
      abbreviation when there is no item or its name is empty. */
  function StateLabel(states: seq<StateOption>, st: string): (text: string)
    ensures (forall o :: o in states ==> o.abbr != st) ==> text == st
    ensures text == st || exists o :: o in states && o.abbr == st && o.name == text
    ensures text == "" ==> st == ""
  {
    var i := FindIndex(states, Abbr, st);
    if i >= 0 && states[i].name != "" then states[i].name else st
  }

  /** For the selector built from the table, the label is the state name of the
      last row with that abbreviation unless that is empty; for an abbreviation
      the table lacks, it is the abbreviation. */
  lemma StateLabelFromTable(table: seq<Entry>, st: string)
    ensures var text := StateLabel(States(table), st);
            var last := LastIndex(table, StateOf, |table|, st);
            && (last == -1 ==> text == st)
            && (last >= 0 ==> text == (if table[last].stateName != "" then table[last].stateName else st))
  {
    var r := States(table);
    StatesListing(table);
    KeySetIndex(r, Abbr, st);
    KeySetIndex(table, StateOf, st);
    var i := FindIndex(r, Abbr, st);
    if i >= 0 {
      assert r[i].abbr == st;
    }
  }

  // ---------------------------------------------------------------------------
  // Handlers and effects

  /** The state selector: the new state with an empty selection. */
  function ChooseState(p: Page, value: string): (q: Page)
    ensures q.selectedState == value && q.selectedCounties == []
    ensures q == p.(selectedState := q.selectedState, selectedCounties := q.selectedCounties)
    ensures FetchEffect(q) == (q, None)
  {
    p.(selectedState := value, selectedCounties := [])
  }

  /** The "select all" checkbox. */
  function SelectAll(table: seq<Entry>, p: Page, checked: bool): (q: Page)
    ensures !checked ==> q.selectedCounties == []
    ensures checked ==> |q.selectedCounties| == |CountiesForState(table, p.selectedState)|
    ensures checked ==> forall i :: 0 <= i < |q.selectedCounties| ==>
              q.selectedCounties[i] == CountiesForState(table, p.selectedState)[i].fips
    ensures q == p.(selectedCounties := q.selectedCounties)
  {
    p.(selectedCounties := if checked then CountyFips(table, p.selectedState) else [])
  }

  function Other(f: string): string -> bool
  {
    (x: string) => x != f
  }

  /** One county's checkbox: append its code, or drop every copy of it. */
  function ToggleCounty(p: Page, f: string, checked: bool): (q: Page)
    ensures checked ==> |q.selectedCounties| == |p.selectedCounties| + 1
                        && q.selectedCounties[..|p.selectedCounties|] == p.selectedCounties
                        && q.selectedCounties[|p.selectedCounties|] == f
    ensures !checked ==> f !in q.selectedCounties
                         && forall x :: x in p.selectedCounties && x != f ==> x in q.selectedCounties
    ensures q == p.(selectedCounties := q.selectedCounties)
  {
    if checked then p.(selectedCounties := p.selectedCounties + [f])
    else
      FilterCounts(p.selectedCounties, Other(f));
      p.(selectedCounties := Filter(p.selectedCounties, Other(f)))
  }

  /** Unchecking a county keeps every other code with its multiplicity and in
      its order. */
  lemma UncheckKeepsOthers(p: Page, f: string)
    ensures var after := ToggleCounty(p, f, false).selectedCounties;
            && IsSubseq(after, p.selectedCounties)
            && forall x :: x != f ==> multiset(after)[x] == multiset(p.selectedCounties)[x]
  {
    var idx := FilterIsSubseq(p.selectedCounties, Other(f));
    FilterCounts(p.selectedCounties, Other(f));
    forall x | x != f
      ensures multiset(ToggleCounty(p, f, false).selectedCounties)[x] == multiset(p.selectedCounties)[x]
    {
      if x !in p.selectedCounties {
        FilterMember(p.selectedCounties, Other(f), x);
      }
    }
  }

  /** Checking a county that was not selected and unchecking it again restores
      the selection. */
  lemma CheckThenUncheck(p: Page, f: string)
    requires f !in p.selectedCounties
    ensures ToggleCounty(ToggleCounty(p, f, true), f, false) == p
  {
    var s := p.selectedCounties;
    FilterConcat(s, [f], Other(f));
    FilterAll(s, Other(f));
    FilterSingleton(f, Other(f));
    assert s + [] == s;
  }

  function EditStart(p: Page, v: string): (q: Page)
    ensures q.latestMonth.Some? <==> p.latestMonth.Some?
    ensures p.latestMonth.Some? ==> q.latestMonth.value == MonthRange(v, p.latestMonth.value.end)
    ensures q == p.(latestMonth := q.latestMonth)
  {
    p.(latestMonth := if p.latestMonth.Some? then Some(p.latestMonth.value.(start := v)) else None)
  }

  function EditEnd(p: Page, v: string): (q: Page)
    ensures q.latestMonth.Some? <==> p.latestMonth.Some?
    ensures p.latestMonth.Some? ==> q.latestMonth.value == MonthRange(p.latestMonth.value.start, v)
    ensures q == p.(latestMonth := q.latestMonth)
  {
    p.(latestMonth := if p.latestMonth.Some? then Some(p.latestMonth.value.(end := v)) else None)
  }

  function LatestMonthLoaded(p: Page, start: string, end: string): (q: Page)
    ensures q.latestMonth == Some(MonthRange(start, end)) && !q.latestMonthLoading
    ensures q == p.(latestMonth := q.latestMonth, latestMonthLoading := q.latestMonthLoading)
  {
    p.(latestMonth := Some(MonthRange(start, end)), latestMonthLoading := false)
  }

  function LatestMonthFailed(p: Page, message: string): (q: Page)
    ensures q.error == Some(message) && !q.latestMonthLoading
    ensures q == p.(error := q.error, latestMonthLoading := q.latestMonthLoading)
  {
    p.(error := Some(message), latestMonthLoading := false)
  }

  /** The market-share effect up to the point where it calls the service:
      returns the new page and the request, if one is sent. */
  function FetchEffect(p: Page): (out: (Page, Option<Request>))
    ensures out.1.Some? <==>
              (|p.selectedCounties| > 0 && p.latestMonth.Some?
               && !Strings.LexLess(p.latestMonth.value.end, p.latestMonth.value.start))
    ensures out.1.Some? ==>
              (out.1.value == Request(p.selectedCounties, p.latestMonth.value.start, p.latestMonth.value.end)
               && out.0 == p.(loading := true, data := [], error := None))
    ensures out.1.None? && (|p.selectedCounties| == 0 || p.latestMonth.None?) ==> out.0 == p
    ensures out.1.None? && |p.selectedCounties| > 0 && p.latestMonth.Some? ==> out.0 == p.(error := Some(StartAfterEnd))
  {
    if |p.selectedCounties| == 0 || p.latestMonth.None? then (p, None)
    else
      var m := p.latestMonth.value;
      if Strings.LexLess(m.end, m.start) then (p.(error := Some(StartAfterEnd)), None)
      else (p.(loading := true, data := [], error := None), Some(Request(p.selectedCounties, m.start, m.end)))
  }

  /** For well-formed `YYYY-MM` months the string test is the calendar test:
      a request goes out exactly when the start month is not later than the
      end month. */
  lemma FetchFollowsCalendar(p: Page)
    requires |p.selectedCounties| > 0 && p.latestMonth.Some?
    requires Strings.IsMonth(p.latestMonth.value.start) && Strings.IsMonth(p.latestMonth.value.end)
    ensures var a, b := p.latestMonth.value.start, p.latestMonth.value.end;
            FetchEffect(p).1.Some? <==>
              Strings.Year(a) < Strings.Year(b)
              || (Strings.Year(a) == Strings.Year(b) && Strings.MonthNumber(a) <= Strings.MonthNumber(b))
  {
    var a, b := p.latestMonth.value.start, p.latestMonth.value.end;
    Strings.MonthOrder(b, a);
  }

  /** The latest sample is present and its share is at least two percent. */
  predicate ShareQualifies(c: Contract)
  {
    |c.series| > 0
    && var latest := c.series[|c.series| - 1];
       latest.marketShare.Some? && latest.marketShare.value >= Threshold
  }

  /** `res.contracts.filter(...)`, which throws on the first contract whose
      series is empty. */
  function FilterContracts(contracts: seq<Contract>): (r: Result<seq<Contract>>)
    ensures r.Failure? <==> exists c :: c in contracts && |c.series| == 0
    ensures r.Failure? ==> r.message == EmptySeriesError
    ensures r.Success? ==> r.value == Filter(contracts, ShareQualifies)
  {
    if |contracts| == 0 then Success([])
    else if |contracts[0].series| == 0 then Failure(EmptySeriesError)
    else
      match FilterContracts(contracts[1..])
      case Failure(m) =>
        assert exists c :: c in contracts[1..] && |c.series| == 0;
        Failure(m)
      case Success(rest) =>
        assert forall c :: c in contracts ==> c == contracts[0] || c in contracts[1..];
        Success((if ShareQualifies(contracts[0]) then [contracts[0]] else []) + rest)
  }

  /** A contract is shown exactly when its latest share qualifies, and the
      shown contracts keep the response's order. */
  lemma FilterContractsKeeps(contracts: seq<Contract>)
    requires FilterContracts(contracts).Success?
    ensures var shown := FilterContracts(contracts).value;
            && (forall c :: c in shown <==> c in contracts && ShareQualifies(c))
            && IsSubseq(shown, contracts)
  {
    forall c
      ensures c in Filter(contracts, ShareQualifies) <==> c in contracts && ShareQualifies(c)
    {
      FilterMember(contracts, ShareQualifies, c);
    }
    var idx := FilterIsSubseq(contracts, ShareQualifies);
  }

  function LastShare(share: Option<real>): Contract
  {
    Contract("H0001", "Plan", [Sample("2025-01", 10, 100, Some(0.5)), Sample("2025-02", 1, 100, share)])
  }

  /** The threshold is inclusive; a `null` latest share hides the contract
      whatever came before it. */
  lemma ThresholdExamples()
    ensures FilterContracts([LastShare(Some(0.019))]) == Success([])
    ensures FilterContracts([LastShare(Some(0.02))]) == Success([LastShare(Some(0.02))])
    ensures FilterContracts([LastShare(None)]) == Success([])
    ensures FilterContracts([LastShare(Some(0.5)), Contract("H0002", "Empty", [])]).Failure?
  {
    var low, at, none := LastShare(Some(0.019)), LastShare(Some(0.02)), LastShare(None);
    assert [low][1..] == [] && [at][1..] == [] && [none][1..] == [];
    assert !ShareQualifies(low) && ShareQualifies(at) && !ShareQualifies(none);
    assert [at] + [] == [at];
    assert [LastShare(Some(0.5)), Contract("H0002", "Empty", [])][1..] == [Contract("H0002", "Empty", [])];
  }

  /** The market-share response: the filtered contracts, or the thrown
      message; loading ends either way. */
  function MarketShareLoaded(p: Page, contracts: seq<Contract>): (q: Page)
    ensures !q.loading
    ensures (forall c :: c in contracts ==> |c.series| > 0) ==>
              q == p.(data := Filter(contracts, ShareQualifies), loading := false)
    ensures (exists c :: c in contracts && |c.series| == 0) ==>
              q == p.(error := Some(EmptySeriesError), loading := false)
  {
    match FilterContracts(contracts)
    case Success(shown) => p.(data := shown, loading := false)
    case Failure(m) => p.(error := Some(m), loading := false)
  }

  function MarketShareFailed(p: Page, message: string): (q: Page)
    ensures q.error == Some(message) && !q.loading
    ensures q == p.(error := q.error, loading := q.loading)
  {
    p.(error := Some(message), loading := false)
  }

  /** Once the months are loaded, the effect sends exactly that range for a
      non-empty selection and a start not after the end, and sends nothing
      otherwise; a failure to load the months never sends anything. */
  lemma LatestMonthSettles(p: Page, start: string, end: string, message: string)
    ensures var out := FetchEffect(LatestMonthLoaded(p, start, end));
            out.1 == (if |p.selectedCounties| > 0 && !Strings.LexLess(end, start)
                      then Some(Request(p.selectedCounties, start, end)) else None)
    ensures p.latestMonth.None? ==> FetchEffect(LatestMonthFailed(p, message)).1 == None
  {
  }

  /** Setting either end of the range to the other end never trips the
      ordering check. */
  lemma MonthEdits(p: Page)
    ensures p.latestMonth.Some? && |p.selectedCounties| > 0 ==>
              FetchEffect(EditStart(p, p.latestMonth.value.end)).1.Some?
              && FetchEffect(EditEnd(p, p.latestMonth.value.start)).1.Some?
  {
    if p.latestMonth.Some? {
      Strings.LexTrichotomy(p.latestMonth.value.end, p.latestMonth.value.end);
      Strings.LexTrichotomy(p.latestMonth.value.start, p.latestMonth.value.start);
    }
  }

  // ---------------------------------------------------------------------------
  // The page as a state machine

  datatype Event =
    | StateChosen(value: string)
    | SelectAllChecked(checked: bool)
    | CountyChecked(fips: string, checked: bool)
    | StartEdited(start: string)
    | EndEdited(end: string)
    | MonthsLoaded(start: string, end: string)
    | MonthsFailed(message: string)
    | FetchRan
    | ContractsLoaded(contracts: seq<Contract>)
    | ContractsFailed(message: string)

  /** Only the state selector changes the state, and it clears the
      selection; only the three selection controls change the selection;
      the controls never touch the response, the loading flag or the error. */
  function Step(table: seq<Entry>, p: Page, ev: Event): (q: Page)
    ensures ev.StateChosen? ==> q.selectedState == ev.value && q.selectedCounties == []
    ensures !ev.StateChosen? ==> q.selectedState == p.selectedState
    ensures !(ev.StateChosen? || ev.SelectAllChecked? || ev.CountyChecked?) ==>
              q.selectedCounties == p.selectedCounties
    ensures (ev.StateChosen? || ev.SelectAllChecked? || ev.CountyChecked? || ev.StartEdited? || ev.EndEdited?) ==>
              q.data == p.data && q.loading == p.loading && q.error == p.error
  {
    match ev
    case StateChosen(v) => ChooseState(p, v)
    case SelectAllChecked(checked) => SelectAll(table, p, checked)
    case CountyChecked(f, checked) => ToggleCounty(p, f, checked)
    case StartEdited(v) => EditStart(p, v)
    case EndEdited(v) => EditEnd(p, v)
    case MonthsLoaded(s, e) => LatestMonthLoaded(p, s, e)
    case MonthsFailed(m) => LatestMonthFailed(p, m)
    case FetchRan => FetchEffect(p).0
    case ContractsLoaded(cs) => MarketShareLoaded(p, cs)
    case ContractsFailed(m) => MarketShareFailed(p, m)
  }

  function Run(table: seq<Entry>, p: Page, evs: seq<Event>): Page
    decreases |evs|
  {
    if |evs| == 0 then p else Run(table, Step(table, p, evs[0]), evs[1..])
  }

  /** Events the rendered page can produce: a county checkbox exists only for
      the chosen state's counties and reports the opposite of whether the
      county is selected. */
  ghost predicate Offered(table: seq<Entry>, p: Page, ev: Event)
  {
    ev.CountyChecked? ==>
      ev.fips in CountyFips(table, p.selectedState)
      && (ev.checked <==> ev.fips !in p.selectedCounties)
  }

  ghost predicate AllOffered(table: seq<Entry>, p: Page, evs: seq<Event>)
    decreases |evs|
  {
    |evs| > 0 ==> Offered(table, p, evs[0]) && AllOffered(table, Step(table, p, evs[0]), evs[1..])
  }

  /** The selection repeats no code and holds only counties of the chosen state. */
  ghost predicate SelectionValid(table: seq<Entry>, p: Page)
  {
    Distinct(p.selectedCounties)
    && forall f :: f in p.selectedCounties ==> f in CountyFips(table, p.selectedState)
  }

  lemma CountyFipsDistinct(table: seq<Entry>, st: string)
    requires UniqueBy(table, FipsOf)
    ensures Distinct(CountyFips(table, st))
  {
    if st != "" {
      FilterKeepsUnique(table, InState(st), FipsOf);
    }
    UniqueKeysDistinct(CountiesForState(table, st), FipsOf);
  }

  lemma AppendKeepsDistinct(s: seq<string>, f: string)
    requires Distinct(s) && f !in s
    ensures Distinct(s + [f])
  {
    var t := s + [f];
    forall i, j | 0 <= i < j < |t|
      ensures t[i] != t[j]
    {
      if j == |s| {
        assert t[i] in s;
      }
    }
  }

  lemma StepKeepsSelectionValid(table: seq<Entry>, p: Page, ev: Event)
    requires UniqueBy(table, FipsOf)
    requires SelectionValid(table, p) && Offered(table, p, ev)
    ensures SelectionValid(table, Step(table, p, ev))
  {
    match ev
    case SelectAllChecked(checked) =>
      CountyFipsDistinct(table, p.selectedState);
    case CountyChecked(f, checked) =>
      if checked {
        AppendKeepsDistinct(p.selectedCounties, f);
      } else {
        FilterKeepsDistinct(p.selectedCounties, Other(f));
        FilterCounts(p.selectedCounties, Other(f));
      }
    case _ =>
  }

  lemma {:induction false} RunKeepsSelectionValid(table: seq<Entry>, p: Page, evs: seq<Event>)
    requires UniqueBy(table, FipsOf)
    requires SelectionValid(table, p) && AllOffered(table, p, evs)
    ensures SelectionValid(table, Run(table, p, evs))
    decreases |evs|
  {
    if |evs| > 0 {
      StepKeepsSelectionValid(table, p, evs[0]);
      RunKeepsSelectionValid(table, Step(table, p, evs[0]), evs[1..]);
    }
  }

  /** From first render, any sequence of offered events over a table built by
      the script keeps the selection valid. */
  lemma BuiltTableKeepsSelectionValid(rows: seq<Row>, cmp: (string, string) -> int, evs: seq<Event>)
    requires AllOffered(Build(rows, cmp), Initial, evs)
    ensures SelectionValid(Build(rows, cmp), Run(Build(rows, cmp), Initial, evs))
  {
    BuildCodes(rows, cmp);
    RunKeepsSelectionValid(Build(rows, cmp), Initial, evs);
  }

  /** On a valid selection the length test means every county of the state is
      selected. */
  lemma AllSelectedMeansEveryCounty(table: seq<Entry>, p: Page)
    requires UniqueBy(table, FipsOf)
    requires SelectionValid(table, p)
    ensures AllCountiesSelected(table, p) <==>
              |CountyFips(table, p.selectedState)| > 0
              && forall f :: f in CountyFips(table, p.selectedState) ==> f in p.selectedCounties
  {
    CountyFipsDistinct(table, p.selectedState);
    DistinctCover(p.selectedCounties, CountyFips(table, p.selectedState));
  }

  /** Without that invariant the length test can be fooled: a repeated code
      stands in for a county that is not selected. */
  lemma LengthTestCounterexample()
    ensures var table := [Entry("06001", "CA", "California", "Alameda"),
                          Entry("06003", "CA", "California", "Alpine")];
            var p := Initial.(selectedState := "CA", selectedCounties := ["06001", "06001"]);
            AllCountiesSelected(table, p) && "06003" in CountyFips(table, "CA") && "06003" !in p.selectedCounties
  {
    var table := [Entry("06001", "CA", "California", "Alameda"),
                  Entry("06003", "CA", "California", "Alpine")];
    assert Filter(table, InState("CA")) == table by {
      FilterAll(table, InState("CA"));
    }
  }

  /** Selecting all counties selects exactly the chosen state's codes. */
  lemma SelectAllExact(table: seq<Entry>, p: Page, f: string)
    requires p.selectedState != ""
    ensures f in SelectAll(table, p, true).selectedCounties <==>
              exists e :: e in table && e.state == p.selectedState && e.fips == f
  {
    var rows := CountiesForState(table, p.selectedState);
    MapSeqMember(rows, FipsOf, f);
    forall e
      ensures e in rows <==> e in table && e.state == p.selectedState
    {
      FilterMember(table, InState(p.selectedState), e);
    }
  }

  /** Choosing a state resets the selection and never triggers a fetch;
      selecting all counties of a state that has some makes the length test
      succeed, and clearing makes it fail. */
  lemma SelectionEffects(table: seq<Entry>, p: Page, v: string)
    ensures ChooseState(p, v).selectedState == v && ChooseState(p, v).selectedCounties == []
    ensures FetchEffect(ChooseState(p, v)).1 == None
    ensures |CountiesForState(table, p.selectedState)| > 0 ==> AllCountiesSelected(table, SelectAll(table, p, true))
    ensures !AllCountiesSelected(table, SelectAll(table, p, false))
  {
  }
}
