/**
  The offline builder that turns the county FIPS CSV into the lookup table the
  dashboard reads: drop rows missing a code fragment, build the five-character
  code, resolve the state name, keep the first row per code, then sort by state
  name and county name.
 */
module FipsTable {
  import opened Seqs
  import opened Sorting
  import Strings
  import opened Wrappers

  /** One CSV row; every column is read as text. */
  datatype Row = Row(statefp: string, countyfp: string, state: string, countyName: string)

  /** One lookup-table entry: `fips`, `state`, `state_name`, `county_name`. */
  datatype Entry = Entry(fips: string, state: string, stateName: string, countyName: string)

  function FipsOf(e: Entry): string
  {
    e.fips
  }

  /** `stateMap[abbr]`: the full name for a postal abbreviation of one of the
      fifty states, the District of Columbia or six territories, and
      `undefined` (`None`) for any other string. */
  function StateMapLookup(abbr: string): (name: Option<string>)
    ensures name.Some? ==> name.value != ""
  {
    match abbr
    case "AL" => Some("Alabama")
    case "AK" => Some("Alaska")
    case "AZ" => Some("Arizona")
    case "AR" => Some("Arkansas")
    case "CA" => Some("California")
    case "CO" => Some("Colorado")
    case "CT" => Some("Connecticut")
    case "DE" => Some("Delaware")
    case "DC" => Some("District of Columbia")
    case "FL" => Some("Florida")
    case "GA" => Some("Georgia")
    case "HI" => Some("Hawaii")
    case "ID" => Some("Idaho")
    case "IL" => Some("Illinois")
    case "IN" => Some("Indiana")
    case "IA" => Some("Iowa")
    case "KS" => Some("Kansas")
    case "KY" => Some("Kentucky")
    case "LA" => Some("Louisiana")
    case "ME" => Some("Maine")
    case "MD" => Some("Maryland")
    case "MA" => Some("Massachusetts")
    case "MI" => Some("Michigan")
    case "MN" => Some("Minnesota")
    case "MS" => Some("Mississippi")
    case "MO" => Some("Missouri")
    case "MT" => Some("Montana")
    case "NE" => Some("Nebraska")
    case "NV" => Some("Nevada")
    case "NH" => Some("New Hampshire")
    case "NJ" => Some("New Jersey")
    case "NM" => Some("New Mexico")
    case "NY" => Some("New York")
    case "NC" => Some("North Carolina")
    case "ND" => Some("North Dakota")
    case "OH" => Some("Ohio")
    case "OK" => Some("Oklahoma")
    case "OR" => Some("Oregon")
    case "PA" => Some("Pennsylvania")
    case "RI" => Some("Rhode Island")
    case "SC" => Some("South Carolina")
    case "SD" => Some("South Dakota")
    case "TN" => Some("Tennessee")
    case "TX" => Some("Texas")
    case "UT" => Some("Utah")
    case "VT" => Some("Vermont")
    case "VA" => Some("Virginia")
    case "WA" => Some("Washington")
    case "WV" => Some("West Virginia")
    case "WI" => Some("Wisconsin")
    case "WY" => Some("Wyoming")
    case "AS" => Some("American Samoa")
    case "GU" => Some("Guam")
    case "MP" => Some("Northern Mariana Islands")
    case "PR" => Some("Puerto Rico")
    case "UM" => Some("U.S. Minor Outlying Islands")
    case "VI" => Some("U.S. Virgin Islands")
    case _ => None
  }

  /** `stateMap[abbr] || abbr`: the table's name when the lookup yields a
      truthy (non-empty) string, the abbreviation itself otherwise. */
  function StateNameOf(abbr: string): (name: string)
    ensures StateMapLookup(abbr).Some? ==> name == StateMapLookup(abbr).value
    ensures StateMapLookup(abbr).None? ==> name == abbr
  {
    match StateMapLookup(abbr)
    case Some(n) => if n != "" then n else abbr
    case None => abbr
  }

  /** `r.STATEFP && r.COUNTYFP`: both fragments are non-empty strings. */
  predicate KeepRow(r: Row)
  {
    r.statefp != "" && r.countyfp != ""
  }

  /** The state fragment padded to two digits followed by the county fragment
      padded to three, both with leading zeros: read back, the code splits
      into a state field and a county field, each holding its fragment
      right-aligned after zeros. */
  function FipsCode(statefp: string, countyfp: string): (code: string)
    ensures |code| == Strings.Width(statefp, 2) + Strings.Width(countyfp, 3)
    ensures Strings.ZeroPadded(code[..Strings.Width(statefp, 2)], statefp)
    ensures Strings.ZeroPadded(code[Strings.Width(statefp, 2)..], countyfp)
  {
    var st, co := Strings.PadStart(statefp, 2, '0'), Strings.PadStart(countyfp, 3, '0');
    assert (st + co)[..|st|] == st && (st + co)[|st|..] == co;
    st + co
  }

  /** The record built from one kept row: the state and county name copied,
      the state name resolved, the code built from the two fragments. */
  function ToEntry(r: Row): (e: Entry)
    ensures e.state == r.state && e.countyName == r.countyName
    ensures StateMapLookup(r.state).Some? ==> e.stateName == StateMapLookup(r.state).value
    ensures StateMapLookup(r.state).None? ==> e.stateName == r.state
    ensures |e.fips| == Strings.Width(r.statefp, 2) + Strings.Width(r.countyfp, 3)
    ensures Strings.ZeroPadded(e.fips[..Strings.Width(r.statefp, 2)], r.statefp)
    ensures Strings.ZeroPadded(e.fips[Strings.Width(r.statefp, 2)..], r.countyfp)
  {
    Entry(FipsCode(r.statefp, r.countyfp), r.state, StateNameOf(r.state), r.countyName)
  }

  /** The entries before duplicates are removed, in input order. */
  function Normalized(rows: seq<Row>): seq<Entry>
  {
    MapSeq(Filter(rows, KeepRow), ToEntry)
  }

  /** `a.state_name.localeCompare(b.state_name) || a.county_name.localeCompare(b.county_name)`
      with `cmp` standing for `localeCompare`: the first non-zero answer. */
  function CompareEntries(cmp: (string, string) -> int, a: Entry, b: Entry): (r: int)
    ensures r == 0 <==> cmp(a.stateName, b.stateName) == 0 && cmp(a.countyName, b.countyName) == 0
    ensures r < 0 <==> cmp(a.stateName, b.stateName) < 0
                       || (cmp(a.stateName, b.stateName) == 0 && cmp(a.countyName, b.countyName) < 0)
    ensures r > 0 <==> cmp(a.stateName, b.stateName) > 0
                       || (cmp(a.stateName, b.stateName) == 0 && cmp(a.countyName, b.countyName) > 0)
  {
    var byState := cmp(a.stateName, b.stateName);
    if byState != 0 then byState else cmp(a.countyName, b.countyName)
  }

  function EntryOrder(cmp: (string, string) -> int): (Entry, Entry) -> int
  {
    (a, b) => CompareEntries(cmp, a, b)
  }

  /** The whole pipeline; `|Build(rows, cmp)|` is the count the script reports. */
  function Build(rows: seq<Row>, cmp: (string, string) -> int): (r: seq<Entry>)
    ensures |r| <= |rows|
  {
    SortBy(DedupeBy(Normalized(rows), FipsOf), EntryOrder(cmp))
  }

  // ---------------------------------------------------------------------------
  // The five-character code

  /** Within the census widths the code is exactly five characters: the state
      fragment right-aligned in the first two, the county fragment right-aligned
      in the last three, zeros everywhere else. */
  lemma FipsCodeShape(statefp: string, countyfp: string)
    requires |statefp| <= 2 && |countyfp| <= 3
    ensures var code := FipsCode(statefp, countyfp);
            && |code| == 5
            && code[2 - |statefp|..2] == statefp
            && code[5 - |countyfp|..] == countyfp
            && (forall i :: 0 <= i < 2 - |statefp| ==> code[i] == '0')
            && (forall i :: 2 <= i < 5 - |countyfp| ==> code[i] == '0')
  {
    var st, co := Strings.PadStart(statefp, 2, '0'), Strings.PadStart(countyfp, 3, '0');
    var code := st + co;
    assert code[2 - |statefp|..2] == st[2 - |statefp|..];
    assert code[5 - |countyfp|..] == co[3 - |countyfp|..];
    assert forall i :: 2 <= i < 5 - |countyfp| ==> code[i] == co[i - 2];
  }

  /** Within the census widths two rows get the same code exactly when their
      padded state fragments and their padded county fragments agree. */
  lemma FipsCodeInjective(s1: string, c1: string, s2: string, c2: string)
    requires |s1| <= 2 && |c1| <= 3 && |s2| <= 2 && |c2| <= 3
    ensures FipsCode(s1, c1) == FipsCode(s2, c2) <==>
              Strings.PadStart(s1, 2, '0') == Strings.PadStart(s2, 2, '0')
              && Strings.PadStart(c1, 3, '0') == Strings.PadStart(c2, 3, '0')
  {
    var a1, b1 := Strings.PadStart(s1, 2, '0'), Strings.PadStart(c1, 3, '0');
    var a2, b2 := Strings.PadStart(s2, 2, '0'), Strings.PadStart(c2, 3, '0');
    assert FipsCode(s1, c1) == a1 + b1 && FipsCode(s2, c2) == a2 + b2;
    ConcatSplit(a1, b1, a2, b2);
  }

  /** Beyond those widths different rows can share a code. */
  lemma FipsCodeCollision()
    ensures FipsCode("123", "4") == FipsCode("12", "3004") == "123004"
  {
    assert Strings.PadStart("4", 3, '0') == "004";
    assert Strings.PadStart("12", 2, '0') == "12";
  }

  /** The example row for Alameda County, California. */
  lemma AlamedaEntry()
    ensures ToEntry(Row("6", "1", "CA", "Alameda")) == Entry("06001", "CA", "California", "Alameda")
  {
    assert Strings.PadStart("6", 2, '0') == "06";
    assert Strings.PadStart("1", 3, '0') == "001";
  }

  // ---------------------------------------------------------------------------
  // The two-key order

  lemma EntryOrderLe(cmp: (string, string) -> int, a: Entry, b: Entry, c: Entry)
    requires Consistent(cmp)
    requires CompareEntries(cmp, a, b) <= 0 && CompareEntries(cmp, b, c) <= 0
    ensures CompareEntries(cmp, a, c) <= 0
  {
    var sab, sbc := cmp(a.stateName, b.stateName), cmp(b.stateName, c.stateName);
    if sab < 0 {
      LtLeTrans(cmp, a.stateName, b.stateName, c.stateName);
    } else if sbc < 0 {
      LeLtTrans(cmp, a.stateName, b.stateName, c.stateName);
    } else {
      EquivTrans(cmp, a.stateName, b.stateName, c.stateName);
      LeTrans(cmp, a.countyName, b.countyName, c.countyName);
    }
  }

  lemma EntryOrderEquiv(cmp: (string, string) -> int, a: Entry, b: Entry, c: Entry)
    requires Consistent(cmp)
    requires CompareEntries(cmp, a, b) == 0 && CompareEntries(cmp, b, c) == 0
    ensures CompareEntries(cmp, a, c) == 0
  {
    EquivTrans(cmp, a.stateName, b.stateName, c.stateName);
    EquivTrans(cmp, a.countyName, b.countyName, c.countyName);
  }

  lemma EntryOrderFlip(cmp: (string, string) -> int, a: Entry, b: Entry)
    requires Consistent(cmp)
    ensures CompareEntries(cmp, a, b) < 0 <==> CompareEntries(cmp, b, a) > 0
  {
    var sab, sba := cmp(a.stateName, b.stateName), cmp(b.stateName, a.stateName);
    assert sab < 0 <==> sba > 0;
    assert sba < 0 <==> sab > 0;
  }

  /** Ordering by state name and then county name is a comparator `sort`
      accepts whenever `localeCompare` is one. */
  lemma EntryOrderConsistent(cmp: (string, string) -> int)
    requires Consistent(cmp)
    ensures Consistent(EntryOrder(cmp))
  {
    var order := EntryOrder(cmp);
    forall a, b
      ensures order(a, b) < 0 <==> order(b, a) > 0
    {
      EntryOrderFlip(cmp, a, b);
    }
    forall a, b, c
      ensures Le(order, a, b) && Le(order, b, c) ==> Le(order, a, c)
    {
      if Le(order, a, b) && Le(order, b, c) {
        EntryOrderLe(cmp, a, b, c);
      }
    }
    forall a, b, c
      ensures Equiv(order, a, b) && Equiv(order, b, c) ==> Equiv(order, a, c)
    {
      if Equiv(order, a, b) && Equiv(order, b, c) {
        EntryOrderEquiv(cmp, a, b, c);
      }
    }
  }

  // ---------------------------------------------------------------------------
  // The pipeline

  /** The codes of the kept rows, each counted once. */
  ghost function KeptCodes(rows: seq<Row>): set<string>
  {
    set r | r in rows && KeepRow(r) :: FipsCode(r.statefp, r.countyfp)
  }

  lemma NormalizedCodes(rows: seq<Row>)
    ensures KeySet(Normalized(rows), FipsOf) == KeptCodes(rows)
  {
    var kept := Filter(rows, KeepRow);
    forall code | code in KeptCodes(rows)
      ensures code in KeySet(Normalized(rows), FipsOf)
    {
      var r :| r in rows && KeepRow(r) && FipsCode(r.statefp, r.countyfp) == code;
      FilterMember(rows, KeepRow, r);
      MapSeqMember(kept, ToEntry, ToEntry(r));
    }
    forall code | code in KeySet(Normalized(rows), FipsOf)
      ensures code in KeptCodes(rows)
    {
      var e :| e in Normalized(rows) && e.fips == code;
      MapSeqMember(kept, ToEntry, e);
      var r :| r in kept && e == ToEntry(r);
      FilterMember(rows, KeepRow, r);
    }
  }

  /** Every entry of the table comes from a kept row. */
  lemma NormalizedFromKeptRows(rows: seq<Row>, e: Entry)
    requires e in Normalized(rows)
    ensures exists r :: r in rows && KeepRow(r) && e == ToEntry(r)
  {
    MapSeqMember(Filter(rows, KeepRow), ToEntry, e);
    var r :| r in Filter(rows, KeepRow) && e == ToEntry(r);
    FilterMember(rows, KeepRow, r);
  }

  /** The sorted table holds exactly the deduplicated entries. */
  lemma BuildPermutes(rows: seq<Row>, cmp: (string, string) -> int)
    ensures multiset(Build(rows, cmp)) == multiset(DedupeBy(Normalized(rows), FipsOf))
    ensures forall e :: e in Build(rows, cmp) <==> e in DedupeBy(Normalized(rows), FipsOf)
  {
    var unique := DedupeBy(Normalized(rows), FipsOf);
    var out := Build(rows, cmp);
    forall e
      ensures e in out <==> e in unique
    {
      assert e in out <==> e in multiset(out);
      assert e in unique <==> e in multiset(unique);
    }
  }

  /** Each kept row's code appears exactly once, and the script's count is
      the number of distinct codes. */
  lemma BuildCodes(rows: seq<Row>, cmp: (string, string) -> int)
    ensures UniqueBy(Build(rows, cmp), FipsOf)
    ensures KeySet(Build(rows, cmp), FipsOf) == KeptCodes(rows)
    ensures |Build(rows, cmp)| == |KeptCodes(rows)|
  {
    var unique := DedupeBy(Normalized(rows), FipsOf);
    var out := Build(rows, cmp);
    BuildPermutes(rows, cmp);
    PermutationKeepsUnique(unique, out, FipsOf);
    NormalizedCodes(rows);
    DedupeCount(Normalized(rows), FipsOf);
    assert KeySet(out, FipsOf) == KeySet(unique, FipsOf);
  }

  /** Each entry is the first kept row with its code, converted. */
  lemma BuildKeepsFirst(rows: seq<Row>, cmp: (string, string) -> int, e: Entry)
    requires e in Build(rows, cmp)
    ensures 0 <= FindIndex(Normalized(rows), FipsOf, e.fips)
    ensures e == Normalized(rows)[FindIndex(Normalized(rows), FipsOf, e.fips)]
    ensures exists r :: r in rows && KeepRow(r) && e == ToEntry(r)
  {
    var unique := DedupeBy(Normalized(rows), FipsOf);
    BuildPermutes(rows, cmp);
    var k :| 0 <= k < |unique| && unique[k] == e;
    assert FipsOf(unique[k]) == e.fips;
    NormalizedFromKeptRows(rows, e);
  }

  /** With a consistent `localeCompare` the output is ordered by state name
      and then county name. */
  lemma BuildSorted(rows: seq<Row>, cmp: (string, string) -> int)
    requires Consistent(cmp)
    ensures Sorted(Build(rows, cmp), EntryOrder(cmp))
    ensures forall i, j :: 0 <= i < j < |Build(rows, cmp)| ==>
              var a, b := Build(rows, cmp)[i], Build(rows, cmp)[j];
              cmp(a.stateName, b.stateName) < 0
              || (cmp(a.stateName, b.stateName) == 0 && cmp(a.countyName, b.countyName) <= 0)
  {
    EntryOrderConsistent(cmp);
    SortSorted(DedupeBy(Normalized(rows), FipsOf), EntryOrder(cmp));
    var out := Build(rows, cmp);
    forall i, j | 0 <= i < j < |out|
      ensures cmp(out[i].stateName, out[j].stateName) < 0
              || (cmp(out[i].stateName, out[j].stateName) == 0 && cmp(out[i].countyName, out[j].countyName) <= 0)
    {
      assert CompareEntries(cmp, out[i], out[j]) <= 0;
    }
  }

  /** Entries that tie on both names keep the order in which their codes
      first appeared. */
  lemma BuildStable(rows: seq<Row>, cmp: (string, string) -> int, e: Entry)
    requires Consistent(cmp)
    ensures Filter(Build(rows, cmp), EquivalentTo(EntryOrder(cmp), e))
         == Filter(DedupeBy(Normalized(rows), FipsOf), EquivalentTo(EntryOrder(cmp), e))
  {
    EntryOrderConsistent(cmp);
    SortStable(DedupeBy(Normalized(rows), FipsOf), EntryOrder(cmp), e);
  }

  /** Rows missing a code fragment contribute nothing: removing them first
      gives the same table. */
  lemma BuildIgnoresDroppedRows(rows: seq<Row>, cmp: (string, string) -> int)
    ensures Build(Filter(rows, KeepRow), cmp) == Build(rows, cmp)
  {
    FilterIdempotent(rows, KeepRow);
  }

  /** The example row without a state code is dropped. */
  lemma AlpineDropped(cmp: (string, string) -> int)
    ensures Build([Row("", "003", "CA", "Alpine")], cmp) == []
  {
    var rows := [Row("", "003", "CA", "Alpine")];
    assert Filter(rows, KeepRow) == [] + Filter([], KeepRow);
  }

  /** Removing duplicates from the table a second time changes nothing. */
  lemma DedupeTwice(rows: seq<Row>)
    ensures DedupeBy(DedupeBy(Normalized(rows), FipsOf), FipsOf) == DedupeBy(Normalized(rows), FipsOf)
    ensures IsSubseq(DedupeBy(Normalized(rows), FipsOf), Normalized(rows))
  {
    DedupeIdempotent(Normalized(rows), FipsOf);
    DedupeIsSubseq(Normalized(rows), FipsOf);
  }
}
