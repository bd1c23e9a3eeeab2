/** The dashboard script (`app.py`) without its widgets and charts: a name
    search, the team and position filters with their option lists, the sort
    menu and the top-ten goal scorers. The widget selections arrive as
    plain parameters. */
module Dashboard {
  import opened Player
  import opened Seqs
  import opened Sorting
  import Text

  /** The option that switches a filter off. */
  const All := "All"

  /** `head(10)` of the top-scorer chart. */
  const TopScorerCount := 10

  /** What the page shows: both option lists, the table and the chart rows. */
  datatype View = View(
    teams: seq<string>,
    positions: seq<string>,
    table: seq<PlayerRecord>,
    topScorers: seq<PlayerRecord>)

  /** An empty collection gives a DataFrame with no columns, and reading its
      `team` (or `name`) column raises `KeyError`. */
  datatype Error = MissingColumn

  datatype Result = Success(view: View) | Failure(error: Error)

  /** The row passes the search box. */
  predicate NameMatches(row: PlayerRecord, query: string) {
    Text.ContainsIgnoringCase(row.name, query)
  }

  /** The rows `str.contains(query, case=False)` selects. */
  function MatchesQuery(query: string): PlayerRecord -> bool {
    (p: PlayerRecord) => NameMatches(p, query)
  }

  /** The rows of one team. */
  function OnTeam(team: string): PlayerRecord -> bool {
    (p: PlayerRecord) => p.team == team
  }

  /** The rows of one position. */
  function AtPosition(position: string): PlayerRecord -> bool {
    (p: PlayerRecord) => p.position == position
  }

  /** Lines 30-31: filter by name only when the query is non-empty; what
      stays is exactly the rows the search box lets through. */
  function Search(rows: seq<PlayerRecord>, query: string): (r: seq<PlayerRecord>)
    ensures |r| <= |rows|
    ensures forall x :: x in r <==> x in rows && (query == "" || NameMatches(x, query))
  {
    if query == "" then rows else Filter(rows, MatchesQuery(query))
  }

  /** An empty query keeps every row; any other keeps, in order and with
      their multiplicity, exactly the rows whose lower-cased name has the
      lower-cased query at some position, and drops every other row. */
  lemma SearchKeepsMatches(rows: seq<PlayerRecord>, query: string)
    ensures query == "" ==> Search(rows, query) == rows
    ensures query != "" ==>
      forall x :: x in Search(rows, query) <==>
        x in rows && exists i :: Text.OccursAt(Text.Lower(query), Text.Lower(x.name), i)
    ensures IsSubsequence(Search(rows, query), rows)
    ensures forall x :: multiset(Search(rows, query))[x] ==
                        if query == "" || NameMatches(x, query) then multiset(rows)[x] else 0
  {
    forall x: PlayerRecord
      ensures NameMatches(x, query) <==> exists i :: Text.OccursAt(Text.Lower(query), Text.Lower(x.name), i)
    {
      Text.ContainsIff(Text.Lower(x.name), Text.Lower(query));
    }
    if query == "" {
      IsSubsequenceRefl(rows);
    } else {
      FilterMultiset(rows, MatchesQuery(query));
      FilterSubsequence(rows, MatchesQuery(query));
    }
  }

  /** Lines 53-54: "All" keeps every row, any other team keeps exactly its rows. */
  function SelectTeam(rows: seq<PlayerRecord>, team: string): (r: seq<PlayerRecord>)
    ensures team == All ==> r == rows
    ensures team != All ==> forall x :: x in r <==> x in rows && x.team == team
    ensures forall x :: multiset(r)[x] == if team == All || x.team == team then multiset(rows)[x] else 0
  {
    if team == All then rows else FilterMultiset(rows, OnTeam(team)); Filter(rows, OnTeam(team))
  }

  /** Lines 56-59: the same for positions. */
  function SelectPosition(rows: seq<PlayerRecord>, position: string): (r: seq<PlayerRecord>)
    ensures position == All ==> r == rows
    ensures position != All ==> forall x :: x in r <==> x in rows && x.position == position
    ensures forall x :: multiset(r)[x] == if position == All || x.position == position then multiset(rows)[x] else 0
  {
    if position == All then rows else FilterMultiset(rows, AtPosition(position)); Filter(rows, AtPosition(position))
  }

  /** The row passes both selections. */
  predicate Selected(row: PlayerRecord, team: string, position: string) {
    (team == All || row.team == team) && (position == All || row.position == position)
  }

  /** Lines 51-59: both filters in turn keep exactly the rows that pass both,
      in their original order. */
  function ApplyFilters(rows: seq<PlayerRecord>, team: string, position: string): (r: seq<PlayerRecord>)
    ensures forall x :: x in r <==> x in rows && Selected(x, team, position)
    ensures forall x :: multiset(r)[x] == if Selected(x, team, position) then multiset(rows)[x] else 0
    ensures IsSubsequence(r, rows)
  {
    var byTeam := SelectTeam(rows, team);
    var r := SelectPosition(byTeam, position);
    if team == All then
      if position == All then IsSubsequenceRefl(rows); r
      else FilterSubsequence(rows, AtPosition(position)); r
    else if position == All then
      FilterSubsequence(rows, OnTeam(team));
      r
    else
      FilterFilter(rows, OnTeam(team), AtPosition(position));
      FilterSubsequence(rows, Both(OnTeam(team), AtPosition(position)));
      assert forall x :: x in r <==> x in rows && Selected(x, team, position);
      r
  }

  /** Every element is below every later one. */
  predicate StrictlyIncreasing(s: seq<string>) {
    forall i, j :: 0 <= i < j < |s| ==> Text.Less(s[i], s[j])
  }

  /** Adds `x` to a strictly increasing list unless it is already there. */
  function InsertDistinct(x: string, s: seq<string>): (r: seq<string>)
    requires StrictlyIncreasing(s)
    ensures StrictlyIncreasing(r)
    ensures forall v :: v in r <==> v == x || v in s
  {
    if s == [] then [x]
    else if x == s[0] then s
    else if Text.Less(x, s[0]) then
      var r := [x] + s;
      assert forall i, j :: 0 <= i < j < |r| ==> Text.Less(r[i], r[j]) by {
        forall i, j | 0 <= i < j < |r| ensures Text.Less(r[i], r[j]) {
          if i == 0 && j > 1 {
            Text.LessTransitive(x, s[0], s[j - 1]);
          }
        }
      }
      r
    else
      var rest := InsertDistinct(x, s[1..]);
      var r := [s[0]] + rest;
      assert forall i, j :: 0 <= i < j < |r| ==> Text.Less(r[i], r[j]) by {
        forall i, j | 0 <= i < j < |r| ensures Text.Less(r[i], r[j]) {
          if i == 0 {
            assert r[j] in rest;
            if r[j] == x {
              Text.LessTrichotomy(x, s[0]);
            } else {
              assert r[j] in s[1..];
              var k :| 0 <= k < |s[1..]| && s[1..][k] == r[j];
              assert s[k + 1] == r[j];
            }
          } else {
          }
        }
      }
      assert s == [s[0]] + s[1..];
      r
  }

  /** `sorted(set(values))`: the distinct values in ascending order. */
  function SortedDistinct(values: seq<string>): (r: seq<string>)
    ensures StrictlyIncreasing(r)
    ensures forall v :: v in r <==> v in values
  {
    if values == [] then []
    else
      assert values == [values[0]] + values[1..];
      InsertDistinct(values[0], SortedDistinct(values[1..]))
  }

  /** Lines 41 and 45: "All", then every distinct value in ascending order,
      each once. */
  function Options(values: seq<string>): (r: seq<string>)
    ensures |r| >= 1 && r[0] == All
    ensures StrictlyIncreasing(r[1..])
    ensures forall v :: v in r[1..] <==> v in values
    ensures forall i, j :: 1 <= i < j < |r| ==> r[i] != r[j]
  {
    var tail := SortedDistinct(values);
    assert forall i, j :: 0 <= i < j < |tail| ==> tail[i] != tail[j] by {
      forall i, j | 0 <= i < j < |tail| ensures tail[i] != tail[j] {
        Text.LessIrreflexive(tail[i]);
      }
    }
    [All] + tail
  }

  /** `df["team"]`. */
  function TeamColumn(rows: seq<PlayerRecord>): (r: seq<string>)
    ensures forall v :: v in r <==> exists x :: x in rows && x.team == v
  {
    var r := seq(|rows|, i requires 0 <= i < |rows| => rows[i].team);
    assert forall x :: x in rows ==> x.team in r by {
      forall x | x in rows ensures x.team in r {
        var i :| 0 <= i < |rows| && rows[i] == x;
        assert r[i] == x.team;
      }
    }
    r
  }

  /** `df["position"]`. */
  function PositionColumn(rows: seq<PlayerRecord>): (r: seq<string>)
    ensures forall v :: v in r <==> exists x :: x in rows && x.position == v
  {
    var r := seq(|rows|, i requires 0 <= i < |rows| => rows[i].position);
    assert forall x :: x in rows ==> x.position in r by {
      forall x | x in rows ensures x.position in r {
        var i :| 0 <= i < |rows| && rows[i] == x;
        assert r[i] == x.position;
      }
    }
    r
  }

  /** Lines 62-72: the labels the sort menu offers. */
  const SortMenu: seq<string> := [
    "None",
    "Name (A-Z)",
    "Name (Z_A)",
    "Price (Low to High)",
    "Price (High to Low)",
    "Total Points (High to Low)",
    "Goals Scored (High to Low)",
    "Assists (High to Low)",
    "Minutes Played (High to Low)"
  ]

  /** Lines 75-90: the chain of label comparisons. Each label a branch
      compares against sorts on its column in its direction; any other label,
      among them the menu's "None" and its "Name (Z_A)" (the branch compares
      against "Name (Z-A)"), leaves the rows as they are. Every outcome is a
      permutation of the rows. */
  function ApplySort(rows: seq<PlayerRecord>, sortBy: string): (r: seq<PlayerRecord>)
    ensures multiset(r) == multiset(rows)
    ensures sortBy == "Name (A-Z)" ==> Sorted(r, Name, true)
    ensures sortBy == "Name (Z-A)" ==> Sorted(r, Name, false)
    ensures sortBy == "Price (Low to High)" ==> Sorted(r, Price, true)
    ensures sortBy == "Price (High to Low)" ==> Sorted(r, Price, false)
    ensures sortBy == "Total Points (High to Low)" ==> Sorted(r, TotalPoints, false)
    ensures sortBy == "Goals Scored (High to Low)" ==> Sorted(r, GoalsScored, false)
    ensures sortBy == "Assists (High to Low)" ==> Sorted(r, Assists, false)
    ensures sortBy == "Minutes Played (High to Low)" ==> Sorted(r, Minutes, false)
    ensures sortBy == SortMenu[0] || sortBy == SortMenu[2] ==> r == rows
  {
    if sortBy == "Name (A-Z)" then SortValues(rows, Name, true)
    else if sortBy == "Name (Z-A)" then SortValues(rows, Name, false)
    else if sortBy == "Price (Low to High)" then SortValues(rows, Price, true)
    else if sortBy == "Price (High to Low)" then SortValues(rows, Price, false)
    else if sortBy == "Total Points (High to Low)" then SortValues(rows, TotalPoints, false)
    else if sortBy == "Goals Scored (High to Low)" then SortValues(rows, GoalsScored, false)
    else if sortBy == "Assists (High to Low)" then SortValues(rows, Assists, false)
    else if sortBy == "Minutes Played (High to Low)" then SortValues(rows, Minutes, false)
    else rows
  }

  /** Line 100: sort by goals, highest first, and keep the first ten. At most
      ten rows, all drawn from the input, goals never increasing, and no row
      left out has more goals than any row kept. */
  function TopScorers(rows: seq<PlayerRecord>): (r: seq<PlayerRecord>)
    ensures |r| == if |rows| < TopScorerCount then |rows| else TopScorerCount
    ensures multiset(r) <= multiset(rows)
    ensures forall i, j :: 0 <= i < j < |r| ==> r[i].goalsScored >= r[j].goalsScored
    ensures forall x, y :: x in multiset(rows) - multiset(r) && y in r ==> x.goalsScored <= y.goalsScored
  {
    var s := SortValues(rows, GoalsScored, false);
    assert |s| == |multiset(s)| == |multiset(rows)| == |rows|;
    var k := if |s| < TopScorerCount then |s| else TopScorerCount;
    SortedPrefixDominates(s, k);
    s[..k]
  }

  /** Cutting a sequence sorted by goals (highest first) after `k` rows leaves
      behind only rows with no more goals than any row kept. */
  lemma SortedPrefixDominates(s: seq<PlayerRecord>, k: nat)
    requires Sorted(s, GoalsScored, false) && k <= |s|
    ensures multiset(s[..k]) <= multiset(s)
    ensures multiset(s) - multiset(s[..k]) == multiset(s[k..])
    ensures forall i, j :: 0 <= i < j < k ==> s[i].goalsScored >= s[j].goalsScored
    ensures forall x, y :: x in s[k..] && y in s[..k] ==> x.goalsScored <= y.goalsScored
  {
    assert s == s[..k] + s[k..];
    forall x, y | x in s[k..] && y in s[..k]
      ensures x.goalsScored <= y.goalsScored
    {
      var a :| 0 <= a < |s[k..]| && s[k..][a] == x;
      var b :| 0 <= b < k && s[..k][b] == y;
    }
  }

  /** The table shows exactly the rows that pass the search and both filters,
      whatever the sort. */
  lemma TableRows(players: seq<PlayerRecord>, searchQuery: string, selectedTeam: string,
                  selectedPosition: string, sortBy: string)
    ensures var table := ApplySort(ApplyFilters(Search(players, searchQuery), selectedTeam, selectedPosition), sortBy);
      forall x :: multiset(table)[x] ==
        if (searchQuery == "" || NameMatches(x, searchQuery)) && Selected(x, selectedTeam, selectedPosition)
        then multiset(players)[x] else 0
    ensures var table := ApplySort(ApplyFilters(Search(players, searchQuery), selectedTeam, selectedPosition), sortBy);
      forall x :: x in table <==>
        x in players && (searchQuery == "" || NameMatches(x, searchQuery)) && Selected(x, selectedTeam, selectedPosition)
  {
    var filtered := ApplyFilters(Search(players, searchQuery), selectedTeam, selectedPosition);
    var table := ApplySort(filtered, sortBy);
    SearchKeepsMatches(players, searchQuery);
    forall x
      ensures x in table <==> x in filtered
    {
      assert x in table <==> x in multiset(table);
      assert x in filtered <==> x in multiset(filtered);
    }
  }

  /** The whole page for one set of widget selections: `players` is the
      fetched collection, and `df`, `filtered_df` are rebound step by step as
      the script does. */
  method Render(players: seq<PlayerRecord>, searchQuery: string, selectedTeam: string,
                selectedPosition: string, sortBy: string) returns (result: Result)
    ensures players == [] <==> result == Failure(MissingColumn)
    ensures result.Success? ==>
      var searched := Search(players, searchQuery);
      && result.view.teams == Options(TeamColumn(searched))
      && result.view.positions == Options(PositionColumn(searched))
      && result.view.table == ApplySort(ApplyFilters(searched, selectedTeam, selectedPosition), sortBy)
      && result.view.topScorers == TopScorers(result.view.table)
    ensures result.Success? ==>
      forall x :: multiset(result.view.table)[x] ==
        if (searchQuery == "" || NameMatches(x, searchQuery)) && Selected(x, selectedTeam, selectedPosition)
        then multiset(players)[x] else 0
    ensures result.Success? ==>
      forall x :: x in result.view.table <==>
        x in players && (searchQuery == "" || NameMatches(x, searchQuery)) && Selected(x, selectedTeam, selectedPosition)
  {
    if players == [] {
      return Failure(MissingColumn);
    }
    var df := players;
    if searchQuery != "" {
      df := Filter(df, MatchesQuery(searchQuery));
    }
    var teams := Options(TeamColumn(df));
    var positions := Options(PositionColumn(df));
    var filteredDf := df;
    if selectedTeam != All {
      filteredDf := Filter(filteredDf, OnTeam(selectedTeam));
    }
    if selectedPosition != All {
      filteredDf := Filter(filteredDf, AtPosition(selectedPosition));
    }
    assert filteredDf == ApplyFilters(df, selectedTeam, selectedPosition);
    filteredDf := ApplySort(filteredDf, sortBy);
    var topScorers := TopScorers(filteredDf);
    TableRows(players, searchQuery, selectedTeam, selectedPosition, sortBy);
    result := Success(View(teams, positions, filteredDf, topScorers));
  }
}
